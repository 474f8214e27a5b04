/** What every gin handler shares: the answer it writes, reading a path id,
    the guard in front of each child route, and the year/month query
    check of the count endpoints. A handler is modelled as a function (when
    it only reads) or a method over the store (when it writes) from the
    request context, the path and query texts and the decoded body to the
    status it answers with. A body that is not valid JSON is `None`. */
module Handlers {
  import opened Common
  import opened Text
  import opened Records
  import opened AuthMiddleware
  import ChildService

  /** The status and either an error message or the answered value. */
  datatype Reply<T> = Refused(status: int, message: string) | Answered(status: int, value: T)

  /** A JSON list built by appending to a nil slice: `null` until the first
      element is appended. */
  datatype JsonList<T> = Null | Items(items: seq<T>)

  function Elements<T>(l: JsonList<T>): seq<T>
  {
    if l.Null? then [] else l.items
  }

  /** What an append loop (from a nil slice) over `s` leaves behind. */
  function ListOf<T>(s: seq<T>): (r: JsonList<T>)
    ensures r.Null? <==> s == []
    ensures Elements(r) == s
  {
    if s == [] then Null else Items(s)
  }

  const NoCurrentUser: string := "User not found"
  const InvalidChildId: string := "Invalid child ID"
  const AccessDenied: string := "Access denied"
  const InvalidRequestData: string := "Invalid request data"
  const FailedToCheckPermission: string := "Failed to check permission: "
  const YearMonthRequired: string := "Year and month parameters are required"
  const InvalidYearMonth: string := "Invalid year or month parameter"

  /** The guard of the child routes that need a permission level: a caller,
      a path id that parses, a permission check that succeeds, and a
      granted level. The check runs before any lookup, so a child that does
      not exist is a 500 carrying the lookup error, never a 404. The answer
      is the caller's and the child's ids. */
  function PermissionGuard(children: map<nat, Child>, permissions: map<nat, Permission>, ctx: RequestContext,
                           idParam: string, requested: PermType): (r: Reply<(nat, nat)>)
    ensures r.Answered? <==> (GetCurrentUserID(ctx).1 && ParseUint32(idParam).Some?
                              && ChildService.CheckChildPermission(children, permissions, GetCurrentUserID(ctx).0,
                                                                   ParseUint32(idParam).value, requested) == Ok(true))
    ensures r.Answered? ==> (r.value == (GetCurrentUserID(ctx).0, ParseUint32(idParam).value)
                             && r.value.1 in children && r.status == StatusOK)
    ensures !GetCurrentUserID(ctx).1 ==> r == Refused(StatusUnauthorized, NoCurrentUser)
    ensures GetCurrentUserID(ctx).1 && ParseUint32(idParam).None? ==> r == Refused(StatusBadRequest, InvalidChildId)
    ensures (GetCurrentUserID(ctx).1 && ParseUint32(idParam).Some? && ParseUint32(idParam).value !in children) ==>
      r == Refused(StatusInternalServerError, FailedToCheckPermission + "record not found")
  {
    var (userId, ok) := GetCurrentUserID(ctx);
    if !ok then Refused(StatusUnauthorized, NoCurrentUser)
    else match ParseUint32(idParam)
      case None => Refused(StatusBadRequest, InvalidChildId)
      case Some(id) =>
        match ChildService.CheckChildPermission(children, permissions, userId, id, requested)
        case Err(e) => Refused(StatusInternalServerError, FailedToCheckPermission + e)
        case Ok(allowed) =>
          if !allowed then Refused(StatusForbidden, AccessDenied) else Answered(StatusOK, (userId, id))
  }

  /** A grantee of the child passes the VIEW guard whenever they pass the
      EDIT guard, and anyone who passes either is the owner or holds a
      granting row. */
  lemma PermissionGuardFollowsRule(children: map<nat, Child>, permissions: map<nat, Permission>,
                                   ctx: RequestContext, idParam: string, requested: PermType)
    requires PermissionGuard(children, permissions, ctx, idParam, requested).Answered?
    ensures var (userId, childId) := PermissionGuard(children, permissions, ctx, idParam, requested).value;
      && ChildService.Authorized(children, permissions, userId, childId, requested)
      && PermissionGuard(children, permissions, ctx, idParam, View).Answered?
  {
    var (userId, childId) := PermissionGuard(children, permissions, ctx, idParam, requested).value;
    ChildService.CheckChildPermissionFollowsRule(children, permissions, userId, childId, requested);
    if requested == Edit {
      ChildService.EditImpliesView(children, permissions, userId, childId);
    }
  }

  /** The `year` and `month` query parameters of the count endpoints: both
      present, both `strconv.Atoi` numbers, and a month from 1 to 12. The
      year is not range-checked. */
  function ParseYearMonth(year: string, month: string): (r: Result<(int, int)>)
    ensures year == "" || month == "" ==> r == Err(YearMonthRequired)
    ensures r.Ok? <==> (ParseInt64(year).Some? && ParseInt64(month).Some? && 1 <= ParseInt64(month).value <= 12)
    ensures r.Ok? ==> r.value == (ParseInt64(year).value, ParseInt64(month).value)
    ensures r.Err? ==> r.message in {YearMonthRequired, InvalidYearMonth}
  {
    if year == "" || month == "" then Err(YearMonthRequired)
    else
      var y, m := ParseInt64(year), ParseInt64(month);
      if y.None? || m.None? || m.value < 1 || m.value > 12 then Err(InvalidYearMonth)
      else Ok((y.value, m.value))
  }

  /** Every year a client can print, with a month from 1 to 12, is read
      back as written; month 0 and month 13 are refused. */
  lemma ParseYearMonthOfNumbers(year: int, month: int)
    requires MinInt64 <= year <= MaxInt64
    ensures 1 <= month <= 12 ==> ParseYearMonth(FormatInt(year), FormatInt(month)) == Ok((year, month))
    ensures (month == 0 || month == 13) ==> ParseYearMonth(FormatInt(year), FormatInt(month)) == Err(InvalidYearMonth)
  {
    ParseFormatInt(year);
    if MinInt64 <= month <= MaxInt64 {
      ParseFormatInt(month);
    }
  }

  /** The checks in front of both month count endpoints: a caller, then
      the year and month. The answer is the caller's id with the month. */
  function CountQuery(ctx: RequestContext, year: string, month: string): (r: Reply<(nat, int, int)>)
    ensures r.Answered? <==> GetCurrentUserID(ctx).1 && ParseYearMonth(year, month).Ok?
    ensures r.Answered? ==> r == Answered(StatusOK, (GetCurrentUserID(ctx).0, ParseYearMonth(year, month).value.0,
                                                     ParseYearMonth(year, month).value.1))
    ensures r.Answered? ==> 1 <= r.value.2 <= 12
    ensures !GetCurrentUserID(ctx).1 ==> r == Refused(StatusUnauthorized, NoCurrentUser)
    ensures GetCurrentUserID(ctx).1 && ParseYearMonth(year, month).Err? ==>
      r == Refused(StatusBadRequest, ParseYearMonth(year, month).message)
  {
    var (userId, ok) := GetCurrentUserID(ctx);
    if !ok then Refused(StatusUnauthorized, NoCurrentUser)
    else match ParseYearMonth(year, month)
      case Err(e) => Refused(StatusBadRequest, e)
      case Ok(ym) => Answered(StatusOK, (userId, ym.0, ym.1))
  }
}
