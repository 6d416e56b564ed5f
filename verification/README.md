# GCTReporter core, modelled in Dafny

GCTReporter is a report designer. Users log in through an HTTP session and write SQL reports with named `:param` placeholders. Administrators manage the user accounts. This project models the core of its backend and the frontend route guard as pure Dafny functions over immutable data, and proves what each piece promises.

- **SqlClean** (`sql_clean.dfy`): the three `replaceAll` passes of `SqlParamExtractor`, applied in order. They delete `--` line comments, delete `/* */` block comments, and replace quoted literals by `''`. Each span pass is proved equal to an independent left-to-right reference reader. The line pass is proved equal to a line-by-line cut.
- **SqlParams** (`sql_params.dfy`): the `:(\w+)` scan, the `LinkedHashSet` de-duplication, `extractParams`, `validateParams` and `isParamsMatch`.
- **Errors** (`errors.dfy`): `BusinessException`, `ErrorResponse` and the three handlers of `GlobalExceptionHandler`.
- **UserContext** (`user_context.dfy`): the `CurrentUserContext` getters and the role checks. The request's attributes are an `Option`; `None` means there is no request.
- **Auth** (`auth.dfy`): `AuthInterceptor.isExcludePath` and `preHandle`. The session is a parameter.
- **UserRequests** (`user_requests.dfy`): the Bean Validation annotations on `CreateUserRequest` and `UpdateUserRequest`, as sets of violations.
- **Users** (`users.dfy`): `UserService` over a map from id to user plus an identity counter. The password encoder is a parameter.
- **Reports** (`reports.dfy`): `ReportService` over a report map, the parameter and column rows and an identity counter. A report's rows are taken to be read back in insertion order (see "## Left out").
- **Router** (`router.dfy`): the frontend route table and the `beforeEach` guard.
- **Base** and **Text** hold `Option`, `Result` and the string helpers (`trim()`, prefix tests, `indexOf`).

The comment and literal passes run in the code's order: line comments first, then block comments, then literals. So a `--` inside a quoted literal is treated as a comment and cuts the rest of its line, closing quote included. The same holds for a `/*` inside a literal. The model follows the code, and `SqlClean.DashesInLiteralCutLine` proves what the code does.

Source paths in the table are relative to the repository root.

## Model

| member | source | states |
|---|---|---|
| SqlClean.LineEnd | backend/src/main/java/com/gct/reportgenerator/util/SqlParamExtractor.java:20 | `[^\n]*` stops at the first newline after the start, or at the end of the text |
| SqlClean.StripLineComments | backend/src/main/java/com/gct/reportgenerator/util/SqlParamExtractor.java:65-67 | the line pass never lengthens the text and adds no char that was not there |
| SqlClean.LineCommentsAreCutPerLine | backend/src/main/java/com/gct/reportgenerator/util/SqlParamExtractor.java:20 | the left-to-right `--[^\n]*` replacement equals cutting every line at its first `--`, newlines kept |
| SqlClean.SpansAsRead | backend/src/main/java/com/gct/reportgenerator/util/SqlParamExtractor.java:23-26 | the regex replace of non-greedy delimited spans equals a reference reader that enters a span at an opening delimiter and leaves it at the first closing one, keeping an unclosed opener as text |
| SqlClean.BlockCommentsAsRead | backend/src/main/java/com/gct/reportgenerator/util/SqlParamExtractor.java:23 | the DOTALL `/\*.*?\*/` pass equals the reference reader for block comments |
| SqlClean.StringLiteralsAsRead | backend/src/main/java/com/gct/reportgenerator/util/SqlParamExtractor.java:26 | the `'…'` or `"…"` pass equals the reference reader with `''` as replacement |
| SqlClean.ReplaceSpans | backend/src/main/java/com/gct/reportgenerator/util/SqlParamExtractor.java:70 | replacing spans only keeps chars of the input or of the replacement |
| SqlClean.StripStringLiterals | backend/src/main/java/com/gct/reportgenerator/util/SqlParamExtractor.java:79-81 | literal replacement adds no char but the single quote |
| SqlClean.Clean | backend/src/main/java/com/gct/reportgenerator/util/SqlParamExtractor.java:42-45 | the cleaned text holds only chars of the SQL and the single quote, so cleaning adds no ':' |
| SqlClean.LineCommentDeleted | backend/src/main/java/com/gct/reportgenerator/util/SqlParamExtractor.java:67 | a `--` the pass reaches is deleted with the rest of its line, and the newline stays |
| SqlClean.BlockCommentDeleted | backend/src/main/java/com/gct/reportgenerator/util/SqlParamExtractor.java:70 | a block comment is deleted through the first `*/` after its opening |
| SqlClean.StringLiteralReplaced | backend/src/main/java/com/gct/reportgenerator/util/SqlParamExtractor.java:80 | a literal in either quote kind becomes `''` |
| SqlClean.CleanKeeps | backend/src/main/java/com/gct/reportgenerator/util/SqlParamExtractor.java:42-45 | text with no '-', '/' or quote in front passes all three passes unchanged |
| SqlClean.CleanPlain | backend/src/main/java/com/gct/reportgenerator/util/SqlParamExtractor.java:42-45 | such text is left alone by each pass, so cleaning is the identity on it |
| SqlClean.LineCommentCleaned | backend/src/test/java/com/gct/reportgenerator/util/SqlParamExtractorTest.java:55-63 | a line comment between plain text disappears up to its newline, so a name in it is gone |
| SqlClean.BlockCommentCleaned | backend/src/test/java/com/gct/reportgenerator/util/SqlParamExtractorTest.java:66-74 | a block comment between plain text disappears with everything it holds |
| SqlClean.LiteralCleaned | backend/src/test/java/com/gct/reportgenerator/util/SqlParamExtractorTest.java:77-84 | a quoted literal between plain text becomes `''`, so a name inside it is gone |
| SqlClean.UnclosedQuoteKept | backend/src/main/java/com/gct/reportgenerator/util/SqlParamExtractor.java:26 | an opening quote without a closing one matches no literal and stays as text |
| SqlClean.DashesInLiteralCutLine | backend/src/main/java/com/gct/reportgenerator/util/SqlParamExtractor.java:42-45 | because comments go first, a `--` inside a literal cuts the rest of the line, closing quote included |
| SqlParams.WordRun | backend/src/main/java/com/gct/reportgenerator/util/SqlParamExtractor.java:17 | greedy `\w+` takes the longest run of ASCII word chars at a position |
| SqlParams.ScanSound | backend/src/main/java/com/gct/reportgenerator/util/SqlParamExtractor.java:49-54 | every `find` result is a ':' followed by a maximal non-empty word run, captured as the name |
| SqlParams.ScanOrdered | backend/src/main/java/com/gct/reportgenerator/util/SqlParamExtractor.java:51 | `find` reports matches at strictly increasing positions |
| SqlParams.ScanComplete | backend/src/main/java/com/gct/reportgenerator/util/SqlParamExtractor.java:51 | no ':' that starts a parameter is skipped, including one right after a previous name |
| SqlParams.Names | backend/src/main/java/com/gct/reportgenerator/util/SqlParamExtractor.java:52 | the captured names line up one-to-one with the matches |
| SqlParams.FirstIndex | backend/src/main/java/com/gct/reportgenerator/util/SqlParamExtractor.java:48 | the position a `LinkedHashSet` keeps for a name is its first appearance |
| SqlParams.FirstOccurrences | backend/src/main/java/com/gct/reportgenerator/util/SqlParamExtractor.java:48-56 | the `LinkedHashSet` list has no repeats, holds exactly the scanned names, and orders them by first appearance |
| SqlParams.ExtractParams | backend/src/main/java/com/gct/reportgenerator/util/SqlParamExtractor.java:34-37 | null or blank SQL gives the empty list, and no result has a repeated name |
| SqlParams.BlankHasNoParam | backend/src/main/java/com/gct/reportgenerator/util/SqlParamExtractor.java:35 | blank SQL would have no parameter even without the early return |
| SqlParams.ScannedIffParam | backend/src/main/java/com/gct/reportgenerator/util/SqlParamExtractor.java:49-54 | the scan captures a name iff some ':' in the text is followed by exactly that word run |
| SqlParams.ExtractedIffParamInCleanText | backend/src/main/java/com/gct/reportgenerator/util/SqlParamExtractor.java:34-60 | a name is extracted iff it follows a ':' in the text with comments and literals removed |
| SqlParams.ExtractedInFirstAppearanceOrder | backend/src/test/java/com/gct/reportgenerator/util/SqlParamExtractorTest.java:110-120 | an earlier extracted name first appears before every occurrence of a later one |
| SqlParams.Without | backend/src/main/java/com/gct/reportgenerator/util/SqlParamExtractor.java:96-109 | the filter keeps exactly the entries absent from the other list, in order and with their repeats |
| SqlParams.Validate | backend/src/main/java/com/gct/reportgenerator/util/SqlParamExtractor.java:90-116 | missing holds exactly the SQL's names not provided; extra holds exactly the provided names not in the SQL; both keep their list's order, and extra keeps duplicates |
| SqlParams.ParamsMatchIffSameNames | backend/src/main/java/com/gct/reportgenerator/util/SqlParamExtractor.java:121-124 | the parameters match iff the provided names and the extracted names are the same set |
| SqlParams.SelfValidated | backend/src/main/java/com/gct/reportgenerator/util/SqlParamExtractor.java:90-124 | comparing a list of names with itself reports nothing missing and nothing extra |
| SqlParams.ExtractedParamsMatchThemselves | backend/src/test/java/com/gct/reportgenerator/util/SqlParamExtractorTest.java:122-131 | validating SQL against its own extracted names reports nothing missing or extra |
| Errors.StatusTable | backend/src/main/java/com/gct/reportgenerator/exception/GlobalExceptionHandler.java:29-33 | 401 exactly for USER_NOT_FOUND and INVALID_PASSWORD, 403 exactly for USER_DISABLED, 400 for every other code |
| Errors.Handle | backend/src/main/java/com/gct/reportgenerator/exception/GlobalExceptionHandler.java:24-65 | a business error is echoed with its mapped status; a validation error gives 400 VALIDATION_ERROR with the first field's message or the fallback; anything else gives 500 SYSTEM_ERROR with a fixed message |
| Errors.ClientErrorUnlessUnexpected | backend/src/main/java/com/gct/reportgenerator/exception/GlobalExceptionHandler.java:24-65 | the status is 4xx iff the exception is a business or validation one, and 500 iff it is neither |
| Errors.BusinessErrorRecovered | backend/src/main/java/com/gct/reportgenerator/exception/GlobalExceptionHandler.java:35-37 | the client gets back exactly the exception's code and message |
| Errors.ServiceCodesAreBadRequests | backend/src/main/java/com/gct/reportgenerator/exception/GlobalExceptionHandler.java:29-33 | UNAUTHORIZED, SYSTEM_ERROR, USER_EXISTS and REPORT_NOT_FOUND business errors give 400; USER_NOT_FOUND gives 401 |
| UserContext.CurrentRequest | backend/src/main/java/com/gct/reportgenerator/util/CurrentUserContext.java:90-99 | fails with SYSTEM_ERROR exactly when there is no request |
| UserContext.Present | backend/src/main/java/com/gct/reportgenerator/util/CurrentUserContext.java:26-29 | a null attribute fails with UNAUTHORIZED "用户未登录" |
| UserContext.CurrentUserId | backend/src/main/java/com/gct/reportgenerator/util/CurrentUserContext.java:23-32 | no request gives SYSTEM_ERROR, a missing id gives UNAUTHORIZED, and otherwise the stored id |
| UserContext.CurrentUsername | backend/src/main/java/com/gct/reportgenerator/util/CurrentUserContext.java:39-48 | the same three cases for the username |
| UserContext.CurrentUserRole | backend/src/main/java/com/gct/reportgenerator/util/CurrentUserContext.java:55-64 | the same three cases for the role |
| UserContext.IsAdmin | backend/src/main/java/com/gct/reportgenerator/util/CurrentUserContext.java:71-73 | fails iff the role getter fails, with its error; otherwise true iff the role is exactly ADMIN |
| UserContext.IsDesigner | backend/src/main/java/com/gct/reportgenerator/util/CurrentUserContext.java:80-83 | fails iff the role getter fails; otherwise true iff the role is ADMIN or DESIGNER |
| UserContext.AdminIsDesigner | backend/src/main/java/com/gct/reportgenerator/util/CurrentUserContext.java:71-83 | every administrator passes the designer check |
| UserContext.ViewerIsNeither | backend/src/main/java/com/gct/reportgenerator/util/CurrentUserContext.java:71-83 | a VIEWER passes neither check |
| UserContext.UnknownRoleIsNeither | backend/src/main/java/com/gct/reportgenerator/util/CurrentUserContext.java:71-83 | a role string other than the two exact names passes neither check |
| UserContext.NoContextFailsEverywhere | backend/src/main/java/com/gct/reportgenerator/util/CurrentUserContext.java:94-96 | outside a request every getter and check fails with SYSTEM_ERROR |
| Auth.ExcludedIffListed | backend/src/main/java/com/gct/reportgenerator/interceptor/AuthInterceptor.java:79-107 | a path skips authentication iff it is the login endpoint, ends in ".ico", or starts with one of the seven public prefixes |
| Auth.PreHandle | backend/src/main/java/com/gct/reportgenerator/interceptor/AuthInterceptor.java:26-71 | public paths pass untouched; otherwise no session user gives 401 "用户未登录"; an authenticated session missing its username or role gives 401 "认证信息无效"; every rejection is 401 UNAUTHORIZED; a request passes iff its path is public or the session holds id, username and role |
| Auth.ContextReadsSession | backend/src/main/java/com/gct/reportgenerator/interceptor/AuthInterceptor.java:49-58 | after a protected request passes, the context getters read back exactly the session's id, username and role |
| Auth.PublicPaths | backend/src/main/java/com/gct/reportgenerator/interceptor/AuthInterceptor.java:81-104 | login, favicon, actuator health and the Swagger page are public |
| Auth.ProtectedPaths | backend/src/main/java/com/gct/reportgenerator/interceptor/AuthInterceptor.java:79-107 | logout, the test controller's public endpoint and the login path with a trailing slash need a session |
| Auth.NotPublic | backend/src/main/java/com/gct/reportgenerator/interceptor/AuthInterceptor.java:79-107 | an "/api/" path other than the login endpoint, not ending in 'o', is protected |
| UserRequests.CreateAcceptedIffValid | backend/src/main/java/com/gct/reportgenerator/dto/CreateUserRequest.java:26-48 | a create request has no violation iff its username has 3-20 chars of `[a-zA-Z0-9_-]`, its password has 6-50 chars and is not all whitespace, and its role is ADMIN, DESIGNER or VIEWER |
| UserRequests.UsernameAccepted | backend/src/main/java/com/gct/reportgenerator/dto/CreateUserRequest.java:26-29 | the username passes iff present with 3-20 chars of the class |
| UserRequests.NoneViolated | backend/src/main/java/com/gct/reportgenerator/dto/CreateUserRequest.java:26-29 | a field's constraints report nothing iff all of them hold |
| UserRequests.RoleAccepted | backend/src/main/java/com/gct/reportgenerator/dto/CreateUserRequest.java:41-43 | the role passes iff present and one of the three names |
| UserRequests.MissingAndEmptyUsername | backend/src/main/java/com/gct/reportgenerator/dto/CreateUserRequest.java:26-29 | a null username breaks only `@NotBlank`; an empty one breaks all three constraints |
| UserRequests.BlankPasswordRejected | backend/src/main/java/com/gct/reportgenerator/dto/CreateUserRequest.java:34-36 | six spaces have the right size but break `@NotBlank` |
| UserRequests.EnabledUnconstrained | backend/src/main/java/com/gct/reportgenerator/dto/CreateUserRequest.java:48 | `enabled` never causes a violation |
| UserRequests.UpdateAcceptedIffValid | backend/src/main/java/com/gct/reportgenerator/dto/UpdateUserRequest.java:25-37 | an update passes iff a given password has 6-50 chars and a given role is one of the three names; an empty update always passes |
| UserRequests.ValidatedPasswordNonEmpty | backend/src/main/java/com/gct/reportgenerator/dto/UpdateUserRequest.java:25-26 | an empty password is refused, so a validated password is non-empty |
| Users.DtoForgetsOnlyPassword | backend/src/main/java/com/gct/reportgenerator/service/UserService.java:157-166 | two users have the same DTO iff they differ at most in the password |
| Users.CreateUser | backend/src/main/java/com/gct/reportgenerator/service/UserService.java:38-62 | fails with USER_EXISTS iff the name is taken; otherwise adds exactly the next id, changes no other user, stores the encoded password, and is enabled unless `enabled` is false |
| Users.UpdateUser | backend/src/main/java/com/gct/reportgenerator/service/UserService.java:72-100 | fails with USER_NOT_FOUND iff the id is absent; otherwise keeps the ids, the username and the other users, re-encodes only a non-empty password, and sets role and enabled only when given |
| Users.DeleteUser | backend/src/main/java/com/gct/reportgenerator/service/UserService.java:108-120 | fails with USER_NOT_FOUND iff the id is absent; otherwise removes exactly that id and keeps the rest |
| Users.GetUserById | backend/src/main/java/com/gct/reportgenerator/service/UserService.java:128-135 | fails with USER_NOT_FOUND iff the id is absent; otherwise returns the stored user's DTO |
| Users.GetAllUsers | backend/src/main/java/com/gct/reportgenerator/service/UserService.java:142-149 | the list holds exactly the DTOs that looking up a stored id returns |
| Users.CreateKeepsValid | backend/src/main/java/com/gct/reportgenerator/service/UserService.java:43-55 | a create keeps ids and usernames unique, and the returned DTO is what a lookup of its id gives |
| Users.CreateSameNameFails | backend/src/main/java/com/gct/reportgenerator/service/UserService.java:43-45 | creating a second user with the same name fails with USER_EXISTS |
| Users.UpdateKeepsValid | backend/src/main/java/com/gct/reportgenerator/service/UserService.java:72-100 | an update keeps the table valid, and the returned DTO is what a lookup gives |
| Users.EmptyUpdateChangesNothing | backend/src/main/java/com/gct/reportgenerator/service/UserService.java:81-94 | an update with no role, no enabled flag and no non-empty password leaves the table as it was |
| Users.DeleteKeepsValid | backend/src/main/java/com/gct/reportgenerator/service/UserService.java:108-120 | after a delete the id is not found and every other lookup is unchanged |
| Reports.NewParamRows | backend/src/main/java/com/gct/reportgenerator/service/ReportService.java:54-64 | one row per given parameter, owned by the report, with name and type copied and `required` true iff it was given as true |
| Reports.NewColumnRows | backend/src/main/java/com/gct/reportgenerator/service/ReportService.java:67-77 | one row per given column, owned by the report, with the fields copied |
| Reports.ParamsReadBack | backend/src/main/java/com/gct/reportgenerator/service/ReportService.java:101-108 | saved parameters read back as the request's list, with a null `required` as false |
| Reports.ColumnsReadBack | backend/src/main/java/com/gct/reportgenerator/service/ReportService.java:111-118 | saved columns read back as the request's list |
| Reports.GetReportById | backend/src/main/java/com/gct/reportgenerator/service/ReportService.java:87-121 | fails with REPORT_NOT_FOUND iff the id is absent; otherwise carries the stored report's id, name, description, SQL and creator, and the DTOs of exactly the parameter and column rows it owns |
| Reports.GetAllReports | backend/src/main/java/com/gct/reportgenerator/service/ReportService.java:127-140 | the list view never carries SQL, parameters or columns |
| Reports.ListIsDetailsWithoutContent | backend/src/main/java/com/gct/reportgenerator/service/ReportService.java:127-140 | the list holds exactly the detail views of stored reports with SQL, parameters and columns dropped |
| Reports.CreateReport | backend/src/main/java/com/gct/reportgenerator/service/ReportService.java:33-81 | fails iff the current-user getter fails, with its error; otherwise stores the request's name, description and SQL under the next id with the current user as creator, advances the counter by one, returns those fields, and changes no other report |
| Reports.CreateNeedsLogin | backend/src/main/java/com/gct/reportgenerator/service/ReportService.java:37-40 | no request or no user id fails before anything is stored, and the AUTH_ERROR branch is never the failure |
| Reports.AppendedRows | backend/src/main/java/com/gct/reportgenerator/service/ReportService.java:54-77 | rows appended for a new report are exactly the rows that report reads back |
| Reports.CreateReadsBack | backend/src/main/java/com/gct/reportgenerator/service/ReportService.java:33-81 | a create keeps every row attached to a stored report, the returned DTO equals the lookup with the request's parameters and columns, and every other report keeps its parameter and column rows |
| Reports.UpdateReport | backend/src/main/java/com/gct/reportgenerator/service/ReportService.java:146-193 | fails with REPORT_NOT_FOUND iff the id is absent; otherwise overwrites name, description and SQL, even with null, keeps id and creator, and changes no other report; the returned DTO is the lookup of the updated report (line 192), carrying its id, creator and the request's name, description and SQL |
| Reports.ReplacedRows | backend/src/main/java/com/gct/reportgenerator/service/ReportService.java:160-189 | deleting a report's rows and appending new ones makes it own exactly the new ones and leaves other reports' rows alone |
| Reports.UpdateReplacesRows | backend/src/main/java/com/gct/reportgenerator/service/ReportService.java:160-189 | after an update the report owns exactly the request's parameters and columns, and every other report keeps its own |
| Reports.UpdateKeepsValid | backend/src/main/java/com/gct/reportgenerator/service/ReportService.java:146-193 | an update keeps every row attached to a stored report |
| Reports.KeptRows | backend/src/main/java/com/gct/reportgenerator/service/ReportService.java:203-208 | rows left after deleting a report's rows belong to other stored reports |
| Reports.DeleteReport | backend/src/main/java/com/gct/reportgenerator/service/ReportService.java:199-211 | fails with REPORT_NOT_FOUND iff the id is absent; otherwise removes exactly that report |
| Reports.DeleteCascades | backend/src/main/java/com/gct/reportgenerator/service/ReportService.java:199-211 | after a delete no row of the report is left, it is not found, and every other report reads back as before |
| Router.Fold | frontend/src/router/index.ts:37-40 | case folding keeps the length and folds each char |
| Router.MatchesIffFoldedEqual | frontend/src/router/index.ts:37-40 | with the default non-strict, case-insensitive options a record matches a path iff the folded path is the folded record stem, possibly followed by one '/' |
| Router.LookupFinds | frontend/src/router/index.ts:5-40 | route matching finds a record that matches the path, and finds none only when no record of the table matches |
| Router.TableStems | frontend/src/router/index.ts:5-34 | the record stems are "/login", "/dashboard", "/reports", "/users" and the empty stem of "/" |
| Router.RoutesDisjoint | frontend/src/router/index.ts:5-40 | no path matches two records, so the first match is the record vue-router's ranking picks |
| Router.LookupFirst | frontend/src/router/index.ts:5-40 | lookup returns the first record that matches |
| Router.LookupIsTheMatch | frontend/src/router/index.ts:5-40 | whatever record a path matches is the one navigation uses |
| Router.Guard | frontend/src/router/index.ts:43-56 | a protected route without a token goes to /login; /login with a token goes to /dashboard; anything else proceeds |
| Router.TableFacts | frontend/src/router/index.ts:5-34 | /login is public; /dashboard, /reports and /users need a token; /users is admin-only; "/" redirects to /login |
| Router.AdminOnlyIgnored | frontend/src/router/index.ts:28 | the guard never reads `adminOnly`, so /users behaves exactly like /reports |
| Router.RootLandsOnLogin | frontend/src/router/index.ts:30-33 | "/" lands on the login page, and with a token goes on to /dashboard |
| Router.UnknownPathProceeds | frontend/src/router/index.ts:43-56 | a path that no record matches proceeds with or without a token |
| Router.ProtectedVariantsNeedToken | frontend/src/router/index.ts:43-49 | any spelling that matches /dashboard, /reports or /users, in any ASCII case and with or without a trailing '/', sends a visitor without a token to /login |
| Router.LooseSpellingsNeedToken | frontend/src/router/index.ts:37-49 | "/dashboard/" and "/Users" without a token go to /login |
| Router.LoginSpellingIsNotLogin | frontend/src/router/index.ts:50-52 | "/Login" matches the login record, but the guard compares the path exactly, so it proceeds even with a token |
| Router.RedirectSettles | frontend/src/router/index.ts:43-56 | where the guard redirects to, it lets through with the same token |

## Left out

- Logging (`log.debug`, `log.info`, `log.error`) has no effect on results and is not modelled.
- Transactions are not modelled. Each service operation is one atomic step on the store.
- Timestamps and the ids of parameter and column rows are not modelled.
- The `BCryptPasswordEncoder` salt is not modelled. The encoder is a deterministic function parameter.
- `SessionService`, `AuthService`, `WebConfig` and the controllers are not part of this model. The session is an `Option<Session>` given to the interceptor, and the request attributes are an `Option<Attributes>`.
- The order of `findAll` is not modelled. The database does not fix it, so `getAllUsers` and `getAllReports` return sets.
- The order of constraint violations is not modelled. The validator does not fix it, so violations are a set, and the "first field error" the handler reports is any one of them.
- `@Size` counts UTF-16 code units. The model counts Dafny chars, which differs only outside the Basic Multilingual Plane.
- `isNameExists`, `extractColumnsFromSql` and the report execution endpoints are not part of this model.
- The database's NOT NULL constraints are not modelled. The store accepts a null value for each of these columns:
  - `param_name`, `param_type` and `required` of `report_params` (ReportParam.java:18-24);
  - `field_name`, `display_name` and `format_type` of `report_columns` (ReportColumn.java:18-24);
  - the columns of `users` (User.java:37-55).
  In the program, saving such a null fails the insert. The `Report` entity is not part of this model, so the constraints on `reports` are unknown.
- Deleting a report relies on the database's ON DELETE CASCADE, which the code's comment describes (ReportService.java:207). `DeleteReport` removes the rows itself.
- SqlParams.Validate: takes the provided names as a sequence, so it cannot express `validateParams(sql, null)`. There the program throws a NullPointerException at `new HashSet<>(providedParams)` (SqlParamExtractor.java:92).
- Reports.CreateReadsBack, Reports.UpdateReplacesRows: assume `findByReportId` returns a report's rows in insertion order. The derived queries (ReportParamRepository.java:11, ReportColumnRepository.java:11) have no `OrderBy`, so the database does not promise any order. The ordered equalities of these lemmas rest on that assumption.
- Users.CreateUser: requires username, password and role to be present. The controller validates the request before the service runs; `Users.CreateUser` does not require the full `ValidCreate`.
- Auth.PreHandle: the 401 body is modelled as the `ErrorResponse` it serializes, not as JSON text.
- SqlParams.ExtractParams: its contract does not state membership and order itself. `ExtractedIffParamInCleanText` and `ExtractedInFirstAppearanceOrder` prove those, so recursive callers do not pay for them.
- Router.Guard: `Navigate` resolves redirect records before the guard runs, as vue-router does. The router's other machinery (history, lazy components) is not modelled.
- Router.PathMatches: does not model percent-encoding, query strings or hashes. Case folding is ASCII only. Under the case-insensitive flag, no non-ASCII char folds to an ASCII one, so ASCII folding decides every match against the table's all-ASCII paths.
- The concrete strings of the SQL unit tests are not evaluated. Their behaviour is covered by the general lemmas on plain text, comments and literals.
