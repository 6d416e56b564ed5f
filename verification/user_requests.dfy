/**
 * The Bean Validation constraints on `CreateUserRequest` and
 * `UpdateUserRequest`, checked one annotation at a time as the validator does,
 * each failed constraint contributing a violation with its own message.
 */
module UserRequests {
  import opened Base
  import opened Text
  import opened UserContext

  /** A failed constraint: the field it sits on and the message it declares. */
  datatype Violation = Violation(field: string, message: string)

  datatype CreateUserRequest = CreateUserRequest(
    username: Option<string>, password: Option<string>, role: Option<string>, enabled: Option<bool>)

  datatype UpdateUserRequest = UpdateUserRequest(
    password: Option<string>, role: Option<string>, enabled: Option<bool>)

  // ---------------------------------------------------------------------------
  // The built-in constraints.  All but `@NotBlank` accept null.
  // ---------------------------------------------------------------------------

  /** `@NotBlank`: present, and not empty after `trim()`. */
  predicate NotBlank(v: Option<string>) {
    v.Some? && !IsBlank(v.value)
  }

  /** `@Size(min, max)`: absent, or of a length between the bounds. */
  predicate SizeWithin(v: Option<string>, min: nat, max: nat) {
    v.None? || min <= |v.value| <= max
  }

  /** The class `[a-zA-Z0-9_-]`. */
  predicate IsUsernameChar(c: char) {
    'a' <= c <= 'z' || 'A' <= c <= 'Z' || '0' <= c <= '9' || c == '_' || c == '-'
  }

  /** `@Pattern("^[a-zA-Z0-9_-]+$")`: absent, or one or more chars of the class and nothing else. */
  predicate UsernamePattern(v: Option<string>) {
    v.None? || (|v.value| > 0 && forall i :: 0 <= i < |v.value| ==> IsUsernameChar(v.value[i]))
  }

  const Roles: set<string> := {Admin, Designer, Viewer}

  /** `@Pattern("^(ADMIN|DESIGNER|VIEWER)$")`: absent, or exactly one of the three role names. */
  predicate RolePattern(v: Option<string>) {
    v.None? || v.value in Roles
  }

  /** The violation a constraint contributes: none when it holds. */
  function Check(holds: bool, field: string, message: string): set<Violation> {
    if holds then {} else {Violation(field, message)}
  }

  // ---------------------------------------------------------------------------
  // CreateUserRequest.
  // ---------------------------------------------------------------------------

  const BlankUsername := "用户名不能为空"
  const UsernameSize := "用户名长度必须在3-20个字符之间"
  const UsernameChars := "用户名只能包含字母、数字、下划线和横线"
  const BlankPassword := "密码不能为空"
  const PasswordSize := "密码长度必须在6-50个字符之间"
  const BlankRole := "角色不能为空"
  const RoleNames := "角色必须是ADMIN、DESIGNER或VIEWER"

  /** The annotations on `username`. */
  function UsernameViolations(username: Option<string>): set<Violation> {
    Check(NotBlank(username), "username", BlankUsername)
    + Check(SizeWithin(username, 3, 20), "username", UsernameSize)
    + Check(UsernamePattern(username), "username", UsernameChars)
  }

  /** The annotations on `password` of a create request. */
  function PasswordViolations(password: Option<string>): set<Violation> {
    Check(NotBlank(password), "password", BlankPassword)
    + Check(SizeWithin(password, 6, 50), "password", PasswordSize)
  }

  /** The annotations on `role` of a create request. */
  function RoleViolations(role: Option<string>): set<Violation> {
    Check(NotBlank(role), "role", BlankRole)
    + Check(RolePattern(role), "role", RoleNames)
  }

  /** Every violated annotation of a `CreateUserRequest`. */
  function CreateViolations(req: CreateUserRequest): set<Violation> {
    UsernameViolations(req.username) + PasswordViolations(req.password) + RoleViolations(req.role)
  }

  /**
   * What a well-formed create request is, said once per field: a username of
   * 3 to 20 chars of the class, a password of 6 to 50 chars that are not all
   * whitespace, one of the three role names; `enabled` is free.
   */
  predicate ValidCreate(req: CreateUserRequest) {
    && req.username.Some? && 3 <= |req.username.value| <= 20
    && (forall i :: 0 <= i < |req.username.value| ==> IsUsernameChar(req.username.value[i]))
    && req.password.Some? && 6 <= |req.password.value| <= 50 && !IsBlank(req.password.value)
    && req.role.Some? && req.role.value in Roles
  }

  /** The annotations pass together exactly on the well-formed requests. */
  lemma CreateAcceptedIffValid(req: CreateUserRequest)
    ensures CreateViolations(req) == {} <==> ValidCreate(req)
  {
    UsernameAccepted(req.username);
    RoleAccepted(req.role);
  }

  /** `@NotBlank` adds nothing to the size and pattern on `username` once the value is present. */
  lemma UsernameAccepted(username: Option<string>)
    ensures UsernameViolations(username) == {} <==>
      username.Some? && 3 <= |username.value| <= 20
      && forall i :: 0 <= i < |username.value| ==> IsUsernameChar(username.value[i])
  {
    NoneViolated(NotBlank(username), SizeWithin(username, 3, 20), UsernamePattern(username),
      "username", BlankUsername, UsernameSize, UsernameChars);
    if username.Some? && UsernamePattern(username) {
      var u := username.value;
      assert !IsTrimmed(u[0]);
      BlankIffAllTrimmed(u);
    }
  }

  /** Three checks on one field report nothing exactly when all three hold. */
  lemma NoneViolated(a: bool, b: bool, c: bool, field: string, ma: string, mb: string, mc: string)
    ensures Check(a, field, ma) + Check(b, field, mb) + Check(c, field, mc) == {} <==> a && b && c
  {
    if !a { assert Violation(field, ma) in Check(a, field, ma); }
    if !b { assert Violation(field, mb) in Check(b, field, mb); }
    if !c { assert Violation(field, mc) in Check(c, field, mc); }
  }

  /** `@NotBlank` on `role` only rejects null: every role name is non-blank. */
  lemma RoleAccepted(role: Option<string>)
    ensures RoleViolations(role) == {} <==> role.Some? && role.value in Roles
  {
    if role.Some? {
      var r := role.value;
      BlankIffAllTrimmed(r);
      if r in Roles {
        assert r[0] in {'A', 'D', 'V'};
        assert !IsTrimmed(r[0]);
      }
    }
  }

  /**
   * A missing field is reported by `@NotBlank` alone, since the other
   * constraints accept null; an empty username breaks all three of its constraints.
   */
  lemma MissingAndEmptyUsername()
    ensures UsernameViolations(None) == {Violation("username", BlankUsername)}
    ensures UsernameViolations(Some(""))
      == {Violation("username", BlankUsername), Violation("username", UsernameSize), Violation("username", UsernameChars)}
  {
    assert IsBlank("");
  }

  /** A password of six spaces has the right size but is blank. */
  lemma BlankPasswordRejected()
    ensures PasswordViolations(Some("      ")) == {Violation("password", BlankPassword)}
  {
    BlankIffAllTrimmed("      ");
  }

  /** `enabled` carries no constraint. */
  lemma EnabledUnconstrained(req: CreateUserRequest, enabled: Option<bool>)
    ensures CreateViolations(req.(enabled := enabled)) == CreateViolations(req)
  {
  }

  // ---------------------------------------------------------------------------
  // UpdateUserRequest: every field optional.
  // ---------------------------------------------------------------------------

  /** Every violated annotation of an `UpdateUserRequest`. */
  function UpdateViolations(req: UpdateUserRequest): set<Violation> {
    Check(SizeWithin(req.password, 6, 50), "password", PasswordSize)
    + Check(RolePattern(req.role), "role", RoleNames)
  }

  /** A well-formed update: any given password has 6 to 50 chars, any given role is one of the three. */
  predicate ValidUpdate(req: UpdateUserRequest) {
    && (req.password.Some? ==> 6 <= |req.password.value| <= 50)
    && (req.role.Some? ==> req.role.value in Roles)
  }

  /** The annotations pass together exactly on the well-formed update requests. */
  lemma UpdateAcceptedIffValid(req: UpdateUserRequest)
    ensures UpdateViolations(req) == {} <==> ValidUpdate(req)
    ensures UpdateViolations(UpdateUserRequest(None, None, req.enabled)) == {}
  {
  }

  /**
   * An empty password is refused by `@Size`, so a validated update that gives a
   * password gives a non-empty one: the service's own emptiness test never fires
   * behind the validator.
   */
  lemma ValidatedPasswordNonEmpty(req: UpdateUserRequest)
    ensures req.password == Some("") ==> Violation("password", PasswordSize) in UpdateViolations(req)
    ensures UpdateViolations(req) == {} && req.password.Some? ==> |req.password.value| > 0
  {
  }
}
