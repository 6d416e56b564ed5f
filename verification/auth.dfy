/**
 * `AuthInterceptor`: which request paths skip authentication, and the
 * `preHandle` decision that either lets a request through (copying the
 * session's user into the request attributes) or answers 401.
 */
module Auth {
  import opened Base
  import opened Text
  import opened Errors
  import opened UserContext

  /**
   * The HTTP session's login attributes, each possibly absent; `None` stands
   * for "no request context", where `SessionService.isAuthenticated` answers false.
   */
  datatype Session = Session(userId: Option<int>, username: Option<string>, role: Option<string>)

  /** What `preHandle` decides: go on with these request attributes, or stop with this status and JSON body. */
  datatype Decision = Proceed(request: Attributes) | Reject(status: int, body: ErrorResponse)

  const LoginPath := "/api/v1/auth/login"
  const NotLoggedInBody := ErrorResponse("UNAUTHORIZED", "用户未登录")
  const InvalidSessionBody := ErrorResponse("UNAUTHORIZED", "认证信息无效")

  /** `isExcludePath`, branch by branch: the login endpoint, static resources, health checks, API docs. */
  predicate IsExcludePath(path: string) {
    if path == LoginPath then true
    else if StartsWith(path, "/static/") || StartsWith(path, "/css/") || StartsWith(path, "/js/")
            || StartsWith(path, "/images/") || EndsWith(path, ".ico") then true
    else if StartsWith(path, "/actuator/") then true
    else if StartsWith(path, "/v3/api-docs") || StartsWith(path, "/swagger-ui") || path == "/swagger-ui.html" then true
    else false
  }

  /** The public path prefixes, as one list. */
  const PublicPrefixes: seq<string> :=
    ["/static/", "/css/", "/js/", "/images/", "/actuator/", "/v3/api-docs", "/swagger-ui"]

  /**
   * The exclusion rule as a table: a path is public exactly when it is the login
   * endpoint, ends in ".ico", or starts with one of the public prefixes.  The
   * separate test for "/swagger-ui.html" adds nothing, as the prefix covers it.
   */
  lemma ExcludedIffListed(path: string)
    ensures IsExcludePath(path) <==>
      path == LoginPath || EndsWith(path, ".ico")
      || exists k :: 0 <= k < |PublicPrefixes| && StartsWith(path, PublicPrefixes[k])
  {
    if path == "/swagger-ui.html" {
      assert StartsWith(path, PublicPrefixes[6]);
    }
    if StartsWith(path, "/static/") { assert StartsWith(path, PublicPrefixes[0]); }
    if StartsWith(path, "/css/") { assert StartsWith(path, PublicPrefixes[1]); }
    if StartsWith(path, "/js/") { assert StartsWith(path, PublicPrefixes[2]); }
    if StartsWith(path, "/images/") { assert StartsWith(path, PublicPrefixes[3]); }
    if StartsWith(path, "/actuator/") { assert StartsWith(path, PublicPrefixes[4]); }
    if StartsWith(path, "/v3/api-docs") { assert StartsWith(path, PublicPrefixes[5]); }
    if StartsWith(path, "/swagger-ui") { assert StartsWith(path, PublicPrefixes[6]); }
  }

  /** `SessionService.isAuthenticated`: a request context exists and the session holds a user id. */
  predicate IsAuthenticated(session: Option<Session>) {
    session.Some? && session.value.userId.Some?
  }

  /**
   * `preHandle`.  Public paths pass with the request untouched.  Otherwise an
   * unauthenticated session is refused with "用户未登录"; an authenticated one
   * whose username or role is missing makes a session getter throw, which is
   * caught and refused with "认证信息无效"; else the three session values are
   * copied into the request attributes and the request passes.
   */
  function PreHandle(path: string, request: Attributes, session: Option<Session>): (d: Decision)
    ensures IsExcludePath(path) ==> d == Proceed(request)
    ensures !IsExcludePath(path) && !IsAuthenticated(session) ==> d == Reject(Unauthorized, NotLoggedInBody)
    ensures d.Reject? ==> d.status == Unauthorized && d.body.code == "UNAUTHORIZED"
    ensures !IsExcludePath(path) && IsAuthenticated(session) && d.Reject? ==> d == Reject(Unauthorized, InvalidSessionBody)
    ensures d.Proceed? <==>
      IsExcludePath(path)
      || (IsAuthenticated(session) && session.value.username.Some? && session.value.role.Some?)
  {
    if IsExcludePath(path) then
      Proceed(request)
    else if !IsAuthenticated(session) then
      Reject(Unauthorized, NotLoggedInBody)
    else
      var s := session.value;
      match (s.username, s.role)
      case (Some(name), Some(role)) => Proceed(Attributes(s.userId, Some(name), Some(role)))
      case _ => Reject(Unauthorized, InvalidSessionBody)
  }

  /**
   * Once the gate has let a protected request through, the context getters read
   * back exactly the session's user: the attributes it sets are the ones
   * `CurrentUserContext` reads.
   */
  lemma ContextReadsSession(path: string, request: Attributes, session: Option<Session>)
    requires !IsExcludePath(path)
    requires PreHandle(path, request, session).Proceed?
    ensures session.Some? && session.value.userId.Some?
    ensures var ctx := Some(PreHandle(path, request, session).request);
      CurrentUserId(ctx) == Success(session.value.userId.value)
      && CurrentUsername(ctx) == Success(session.value.username.value)
      && CurrentUserRole(ctx) == Success(session.value.role.value)
  {
  }

  /** The endpoints that are public. */
  lemma PublicPaths()
    ensures IsExcludePath("/api/v1/auth/login")
    ensures IsExcludePath("/favicon.ico")
    ensures IsExcludePath("/actuator/health")
    ensures IsExcludePath("/swagger-ui.html")
  {
    assert StartsWith("/actuator/health", "/actuator/");
    assert EndsWith("/favicon.ico", ".ico");
  }

  /**
   * Logout and the test controller's "public" endpoint are not on the list, so
   * both need a session; so does the login path with a trailing slash.
   */
  lemma ProtectedPaths()
    ensures !IsExcludePath("/api/v1/auth/logout")
    ensures !IsExcludePath("/api/v1/test/public")
    ensures !IsExcludePath("/api/v1/auth/login/")
  {
    NotPublic("/api/v1/auth/logout");
    NotPublic("/api/v1/test/public");
    NotPublic("/api/v1/auth/login/");
  }

  /** A path under "/api/" that does not end in ".ico" and is not the login endpoint is protected. */
  lemma NotPublic(path: string)
    requires StartsWith(path, "/api/") && path != LoginPath
    requires |path| > 0 && path[|path| - 1] != 'o'
    ensures !IsExcludePath(path)
  {
    assert path[1] == 'a';
    PrefixDiffersAt(path, "/static/", 1);
    PrefixDiffersAt(path, "/css/", 1);
    PrefixDiffersAt(path, "/js/", 1);
    PrefixDiffersAt(path, "/images/", 1);
    assert path[2] == 'p';
    PrefixDiffersAt(path, "/actuator/", 2);
    PrefixDiffersAt(path, "/v3/api-docs", 1);
    PrefixDiffersAt(path, "/swagger-ui", 1);
    if |path| >= |".ico"| {
      assert path[|path| - |".ico"|..][3] != ".ico"[3];
    }
  }
}
