/**
 * `CurrentUserContext`: the getters a controller uses to read the logged-in
 * user from the current request's attributes, and the role checks built on them.
 */
module UserContext {
  import opened Base
  import opened Errors

  /** The three request attributes the auth gate sets; each may be absent. */
  datatype Attributes = Attributes(userId: Option<int>, username: Option<string>, role: Option<string>)

  /** `RequestContextHolder.getRequestAttributes()`: the current request, or None outside one. */
  type Context = Option<Attributes>

  const Admin := "ADMIN"
  const Designer := "DESIGNER"
  const Viewer := "VIEWER"

  const NotLoggedIn := BusinessError("UNAUTHORIZED", "用户未登录")
  const NoRequestContext := BusinessError("SYSTEM_ERROR", "无法获取请求上下文")

  /** `getCurrentRequest`: fails with SYSTEM_ERROR when there is no request. */
  function CurrentRequest(ctx: Context): (r: Result<Attributes, BusinessError>)
    ensures r.Success? <==> ctx.Some?
    ensures r.Failure? ==> r.error == NoRequestContext
  {
    match ctx
    case Some(a) => Success(a)
    case None => Failure(NoRequestContext)
  }

  /** The null check each getter makes on its attribute. */
  function Present<T>(v: Option<T>): (r: Result<T, BusinessError>)
    ensures r.Success? <==> v.Some?
    ensures r.Failure? ==> r.error == NotLoggedIn
  {
    match v
    case Some(x) => Success(x)
    case None => Failure(NotLoggedIn)
  }

  /** `getCurrentUserId`. */
  function CurrentUserId(ctx: Context): (r: Result<int, BusinessError>)
    ensures ctx.None? ==> r == Failure(NoRequestContext)
    ensures ctx.Some? && ctx.value.userId.None? ==> r == Failure(NotLoggedIn)
    ensures ctx.Some? && ctx.value.userId.Some? ==> r == Success(ctx.value.userId.value)
  {
    var request :- CurrentRequest(ctx);
    Present(request.userId)
  }

  /** `getCurrentUsername`. */
  function CurrentUsername(ctx: Context): (r: Result<string, BusinessError>)
    ensures ctx.None? ==> r == Failure(NoRequestContext)
    ensures ctx.Some? && ctx.value.username.None? ==> r == Failure(NotLoggedIn)
    ensures ctx.Some? && ctx.value.username.Some? ==> r == Success(ctx.value.username.value)
  {
    var request :- CurrentRequest(ctx);
    Present(request.username)
  }

  /** `getCurrentUserRole`. */
  function CurrentUserRole(ctx: Context): (r: Result<string, BusinessError>)
    ensures ctx.None? ==> r == Failure(NoRequestContext)
    ensures ctx.Some? && ctx.value.role.None? ==> r == Failure(NotLoggedIn)
    ensures ctx.Some? && ctx.value.role.Some? ==> r == Success(ctx.value.role.value)
  {
    var request :- CurrentRequest(ctx);
    Present(request.role)
  }

  /** `isAdmin`: the role read from the request is exactly "ADMIN"; fails as the role getter does. */
  function IsAdmin(ctx: Context): (r: Result<bool, BusinessError>)
    ensures r.Failure? <==> CurrentUserRole(ctx).Failure?
    ensures r.Failure? ==> r.error == CurrentUserRole(ctx).error
    ensures r.Success? ==> (r.value <==> ctx.value.role.value == Admin)
  {
    var role :- CurrentUserRole(ctx);
    Success(role == Admin)
  }

  /** `isDesigner`: the role is "ADMIN" or "DESIGNER"; fails as the role getter does. */
  function IsDesigner(ctx: Context): (r: Result<bool, BusinessError>)
    ensures r.Failure? <==> CurrentUserRole(ctx).Failure?
    ensures r.Failure? ==> r.error == CurrentUserRole(ctx).error
    ensures r.Success? ==> (r.value <==> ctx.value.role.value in {Admin, Designer})
  {
    var role :- CurrentUserRole(ctx);
    Success(role == Admin || role == Designer)
  }

  /** Every administrator is a designer. */
  lemma AdminIsDesigner(ctx: Context)
    ensures IsAdmin(ctx) == Success(true) ==> IsDesigner(ctx) == Success(true)
  {
  }

  /** A viewer is neither an administrator nor a designer. */
  lemma ViewerIsNeither(ctx: Context)
    requires ctx.Some? && ctx.value.role == Some(Viewer)
    ensures IsAdmin(ctx) == Success(false)
    ensures IsDesigner(ctx) == Success(false)
  {
  }

  /** The role checks hold only of the exact upper-case names; any other role string passes neither. */
  lemma UnknownRoleIsNeither(ctx: Context)
    requires ctx.Some? && ctx.value.role.Some?
    requires ctx.value.role.value !in {Admin, Designer}
    ensures IsAdmin(ctx) == Success(false)
    ensures IsDesigner(ctx) == Success(false)
  {
  }

  /** Outside a request every accessor fails with SYSTEM_ERROR, before any attribute is read. */
  lemma NoContextFailsEverywhere()
    ensures CurrentUserId(None).error == NoRequestContext
    ensures CurrentUsername(None).error == NoRequestContext
    ensures CurrentUserRole(None).error == NoRequestContext
    ensures IsAdmin(None) == Failure(NoRequestContext)
    ensures IsDesigner(None) == Failure(NoRequestContext)
  {
  }
}
