/**
 * `UserService` over an abstract `users` table: a map from id to row plus the
 * next id the identity column hands out.  The password encoder is a parameter.
 */
module Users {
  import opened Base
  import opened Errors
  import opened UserRequests

  /** A row of `users`. */
  datatype User = User(id: int, username: string, password: string, role: string, enabled: bool)

  /** `UserDTO`: what the service hands back; it has no password field. */
  datatype UserDto = UserDto(id: int, username: string, role: string, enabled: bool)

  /** The `users` table and its identity counter. */
  datatype Store = Store(users: map<int, User>, nextId: int)

  /** `BCryptPasswordEncoder.encode`, abstracted. */
  type Encoder = string -> string

  const UserExists := BusinessError("USER_EXISTS", "用户名已存在")
  const UserNotFound := BusinessError("USER_NOT_FOUND", "用户不存在")

  /**
   * The table's integrity: each row sits under its own id, ids below the
   * counter, and usernames unique (the column's unique constraint).
   */
  predicate Valid(st: Store) {
    && (forall id :: id in st.users ==> st.users[id].id == id && id < st.nextId)
    && (forall a, b :: a in st.users && b in st.users && st.users[a].username == st.users[b].username ==> a == b)
  }

  /** `findByUsername(name).isPresent()`. */
  predicate UsernameTaken(st: Store, name: string) {
    exists id :: id in st.users && st.users[id].username == name
  }

  /** `convertToDTO`. */
  function ToDto(u: User): UserDto {
    UserDto(u.id, u.username, u.role, u.enabled)
  }

  /** The DTO keeps every field of the row but the password, and the password cannot be recovered from it. */
  lemma DtoForgetsOnlyPassword(u: User, v: User)
    ensures ToDto(u) == ToDto(v) <==> u.(password := v.password) == v
  {
  }

  /** `createUser`; the request's three required fields are present. */
  function CreateUser(st: Store, req: CreateUserRequest, encode: Encoder): (r: Result<(Store, UserDto), BusinessError>)
    requires req.username.Some? && req.password.Some? && req.role.Some?
    ensures r.Failure? <==> UsernameTaken(st, req.username.value)
    ensures r.Failure? ==> r.error == UserExists
    ensures r.Success? ==> r.value.0.users.Keys == st.users.Keys + {st.nextId} && r.value.1.id == st.nextId
    ensures r.Success? ==> forall id :: id in st.users && id != st.nextId ==> r.value.0.users[id] == st.users[id]
    ensures r.Success? ==>
      var u := r.value.0.users[st.nextId];
      && u.username == req.username.value
      && u.password == encode(req.password.value)
      && u.role == req.role.value
      && (u.enabled <==> req.enabled != Some(false))
      && r.value.1 == ToDto(u)
  {
    if UsernameTaken(st, req.username.value) then
      Failure(UserExists)
    else
      var user := User(st.nextId, req.username.value, encode(req.password.value), req.role.value,
                       req.enabled.GetOr(true));
      Success((Store(st.users[user.id := user], st.nextId + 1), ToDto(user)))
  }

  /** An update replaces the password only when the request gives a non-empty one. */
  predicate PasswordGiven(req: UpdateUserRequest) {
    req.password.Some? && req.password.value != ""
  }

  /** `updateUser`. */
  function UpdateUser(st: Store, id: int, req: UpdateUserRequest, encode: Encoder): (r: Result<(Store, UserDto), BusinessError>)
    ensures r.Failure? <==> id !in st.users
    ensures r.Failure? ==> r.error == UserNotFound
    ensures r.Success? ==> r.value.0.users.Keys == st.users.Keys && r.value.0.nextId == st.nextId
    ensures r.Success? ==> forall j :: j in st.users && j != id ==> r.value.0.users[j] == st.users[j]
    ensures r.Success? ==>
      var before := st.users[id];
      var after := r.value.0.users[id];
      && after.id == before.id && after.username == before.username
      && (!PasswordGiven(req) ==> after.password == before.password)
      && (PasswordGiven(req) ==> after.password == encode(req.password.value))
      && (req.role.None? ==> after.role == before.role)
      && (req.role.Some? ==> after.role == req.role.value)
      && (req.enabled.None? ==> after.enabled == before.enabled)
      && (req.enabled.Some? ==> after.enabled == req.enabled.value)
      && r.value.1 == ToDto(after)
  {
    if id !in st.users then
      Failure(UserNotFound)
    else
      var user := st.users[id];
      var user := if PasswordGiven(req) then user.(password := encode(req.password.value)) else user;
      var user := if req.role.Some? then user.(role := req.role.value) else user;
      var user := if req.enabled.Some? then user.(enabled := req.enabled.value) else user;
      Success((st.(users := st.users[id := user]), ToDto(user)))
  }

  /** `deleteUser`. */
  function DeleteUser(st: Store, id: int): (r: Result<Store, BusinessError>)
    ensures r.Failure? <==> id !in st.users
    ensures r.Failure? ==> r.error == UserNotFound
    ensures r.Success? ==> r.value.users.Keys == st.users.Keys - {id} && r.value.nextId == st.nextId
    ensures r.Success? ==> forall j :: j in r.value.users ==> r.value.users[j] == st.users[j]
  {
    if id !in st.users then Failure(UserNotFound) else Success(st.(users := st.users - {id}))
  }

  /** `getUserById`. */
  function GetUserById(st: Store, id: int): (r: Result<UserDto, BusinessError>)
    ensures r.Failure? <==> id !in st.users
    ensures r.Failure? ==> r.error == UserNotFound
    ensures r.Success? ==> r.value == ToDto(st.users[id])
  {
    if id !in st.users then Failure(UserNotFound) else Success(ToDto(st.users[id]))
  }

  /** `getAllUsers`, as the set of DTOs (the order of `findAll` is left open). */
  function GetAllUsers(st: Store): (r: set<UserDto>)
    ensures forall d :: d in r <==> exists id :: id in st.users && GetUserById(st, id) == Success(d)
  {
    set id | id in st.users :: ToDto(st.users[id])
  }

  // ---------------------------------------------------------------------------
  // The operations keep the table's integrity and agree with the lookup.
  // ---------------------------------------------------------------------------

  /** A successful create takes a fresh id, keeps the usernames unique, and the new user can be looked up. */
  lemma CreateKeepsValid(st: Store, req: CreateUserRequest, encode: Encoder)
    requires Valid(st)
    requires req.username.Some? && req.password.Some? && req.role.Some?
    requires CreateUser(st, req, encode).Success?
    ensures st.nextId !in st.users
    ensures Valid(CreateUser(st, req, encode).value.0)
    ensures var (st2, dto) := CreateUser(st, req, encode).value;
      GetUserById(st2, dto.id) == Success(dto)
  {
    assert !UsernameTaken(st, req.username.value);
    forall j | j in st.users ensures st.users[j].username != req.username.value {
    }
  }

  /** Creating a user with a username the table already holds fails, whatever the other fields. */
  lemma CreateSameNameFails(st: Store, req: CreateUserRequest, again: CreateUserRequest, encode: Encoder)
    requires req.username.Some? && req.password.Some? && req.role.Some?
    requires again.password.Some? && again.role.Some? && again.username == req.username
    requires CreateUser(st, req, encode).Success?
    ensures CreateUser(CreateUser(st, req, encode).value.0, again, encode) == Failure(UserExists)
  {
    var st2 := CreateUser(st, req, encode).value.0;
    assert st2.users[st.nextId].username == again.username.value;
  }

  /** An update keeps the table valid: the username and id of the row never change. */
  lemma UpdateKeepsValid(st: Store, id: int, req: UpdateUserRequest, encode: Encoder)
    requires Valid(st)
    requires UpdateUser(st, id, req, encode).Success?
    ensures Valid(UpdateUser(st, id, req, encode).value.0)
    ensures var (st2, dto) := UpdateUser(st, id, req, encode).value;
      GetUserById(st2, id) == Success(dto)
  {
    var st2 := UpdateUser(st, id, req, encode).value.0;
    forall j | j in st2.users ensures st2.users[j].username == st.users[j].username {
    }
  }

  /** An update that gives nothing to change (an empty password counts as none) leaves the table as it was. */
  lemma EmptyUpdateChangesNothing(st: Store, id: int, req: UpdateUserRequest, encode: Encoder)
    requires Valid(st) && id in st.users
    requires !PasswordGiven(req) && req.role.None? && req.enabled.None?
    ensures UpdateUser(st, id, req, encode) == Success((st, ToDto(st.users[id])))
  {
    var st2 := UpdateUser(st, id, req, encode).value.0;
    assert st2.users == st.users;
  }

  /** A delete keeps the table valid, and afterwards the id is not found while every other user still is. */
  lemma DeleteKeepsValid(st: Store, id: int)
    requires Valid(st)
    requires DeleteUser(st, id).Success?
    ensures Valid(DeleteUser(st, id).value)
    ensures GetUserById(DeleteUser(st, id).value, id) == Failure(UserNotFound)
    ensures forall j :: j != id ==> GetUserById(DeleteUser(st, id).value, j) == GetUserById(st, j)
  {
  }
}
