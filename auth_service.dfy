/**
 * The in-memory identity store of `AuthService`: a growing array of users,
 * registration, credential validation and token issuance.
 */
module Auth {
  import opened Results
  import opened Crypto
  import opened Entity

  datatype RegisterDto = RegisterDto(email: string, password: string, name: string)

  /** `{ email, password }`: the body the login route passes on. */
  datatype LoginDto = LoginDto(email: string, password: string)

  /** `new Error('User with this email already exists.')`, and the `'Invalid credentials'`
      rejection a login must give when validation fails. */
  datatype AuthError = EmailAlreadyExists | InvalidCredentials

  /** `{ access_token, user }` with `user` of the declared shape `AuthenticatedUser`. */
  datatype LoginResponse = LoginResponse(accessToken: string, user: PublicUser)

  /** `{ access_token, user }` as the login route actually gets it back: `user` is the body it sent. */
  datatype EchoedLogin = EchoedLogin(accessToken: string, user: LoginDto)

  /** Record `i` carries id `i + 1`: ids are assigned as `users.length + 1` and the array only grows. */
  ghost predicate IdsSequential(users: seq<User>) {
    forall i :: 0 <= i < |users| ==> users[i].id == i + 1
  }

  /** No two records share an email (compared exactly, case-sensitively). */
  ghost predicate EmailsDistinct(users: seq<User>) {
    forall i, j :: 0 <= i < j < |users| ==> users[i].email != users[j].email
  }

  /** `users.find(user => user.email === email)`, as the index of the first match. */
  function IndexOfEmail(users: seq<User>, email: string): (r: Option<nat>)
    ensures r.Some? ==> r.value < |users| && users[r.value].email == email
    ensures r.Some? ==> forall j :: 0 <= j < r.value ==> users[j].email != email
    ensures r.None? <==> forall j :: 0 <= j < |users| ==> users[j].email != email
  {
    if |users| == 0 then None
    else if users[0].email == email then Some(0)
    else
      match IndexOfEmail(users[1..], email)
      case None => None
      case Some(i) => Some(i + 1)
  }

  /** What `validateUser(email, pass)` returns over the array `users`. */
  function Validated(users: seq<User>, bcrypt: Bcrypt, email: string, pass: string): (r: Option<PublicUser>)
    ensures r.Some? ==> exists i :: 0 <= i < |users| && users[i].email == email
                          && bcrypt.compare(pass, users[i].password) && r.value == Public(users[i])
    ensures EmailsDistinct(users) ==>
              forall i :: 0 <= i < |users| && users[i].email == email && bcrypt.compare(pass, users[i].password)
                ==> r == Some(Public(users[i]))
    ensures (forall i :: 0 <= i < |users| ==> users[i].email != email) ==> r.None?
  {
    match IndexOfEmail(users, email)
    case None => None
    case Some(i) => if bcrypt.compare(pass, users[i].password) then Some(Public(users[i])) else None
  }

  /** The result of `register` together with the array it leaves behind. */
  datatype Registration = Registration(result: Result<PublicUser, AuthError>, users: seq<User>)

  /** What `register(dto)` does to the array `users`. */
  function Registered(users: seq<User>, bcrypt: Bcrypt, dto: RegisterDto): (reg: Registration)
    ensures reg.result.Failure? <==> exists i :: 0 <= i < |users| && users[i].email == dto.email
    ensures reg.result.Failure? ==> reg.users == users
    ensures reg.result.Success? ==>
              && |reg.users| == |users| + 1
              && reg.users[..|users|] == users
              && reg.users[|users|] == User(|users| + 1, dto.email, bcrypt.hash(dto.password), dto.name)
              && reg.result.value == PublicUser(|users| + 1, dto.email, dto.name)
    ensures IdsSequential(users) ==> IdsSequential(reg.users)
    ensures EmailsDistinct(users) ==> EmailsDistinct(reg.users)
  {
    if IndexOfEmail(users, dto.email).Some? then
      Registration(Failure(EmailAlreadyExists), users)
    else
      var u := User(|users| + 1, dto.email, bcrypt.hash(dto.password), dto.name);
      Registration(Success(Public(u)), users + [u])
  }

  /** Sequential ids are pairwise distinct. */
  lemma SequentialIdsUnique(users: seq<User>, i: int, j: int)
    requires IdsSequential(users)
    requires 0 <= i < |users| && 0 <= j < |users| && i != j
    ensures users[i].id != users[j].id
  {
  }

  /** A freshly registered user validates with the password it registered with. */
  lemma RegisterThenValidate(users: seq<User>, bcrypt: Bcrypt, dto: RegisterDto)
    requires bcrypt.Sound()
    requires Registered(users, bcrypt, dto).result.Success?
    ensures Validated(Registered(users, bcrypt, dto).users, bcrypt, dto.email, dto.password)
            == Registered(users, bcrypt, dto).result.ToOption()
  {
  }

  /** A second registration with an email that was just registered is rejected and changes nothing,
      whatever its password and name. */
  lemma RegisterSameEmailTwice(users: seq<User>, bcrypt: Bcrypt, first: RegisterDto, second: RegisterDto)
    requires second.email == first.email
    ensures var after := Registered(users, bcrypt, first).users;
            Registered(after, bcrypt, second) == Registration(Failure(EmailAlreadyExists), after)
  {
  }

  class AuthService {
    /** `private users = []` */
    var users: seq<User>
    const bcrypt: Bcrypt
    const jwtService: JwtService

    ghost predicate Valid()
      reads this
    {
      IdsSequential(users) && EmailsDistinct(users)
    }

    constructor (bcrypt: Bcrypt, jwtService: JwtService)
      ensures Valid() && users == []
      ensures this.bcrypt == bcrypt && this.jwtService == jwtService
    {
      this.users := [];
      this.bcrypt := bcrypt;
      this.jwtService := jwtService;
    }

    /** The linear scan behind `users.find(user => user.email === email)`. */
    method Find(email: string) returns (r: Option<nat>)
      ensures r == IndexOfEmail(users, email)
    {
      var i := 0;
      while i < |users|
        invariant 0 <= i <= |users|
        invariant forall j :: 0 <= j < i ==> users[j].email != email
      {
        if users[i].email == email {
          return Some(i);
        }
        i := i + 1;
      }
      return None;
    }

    /** `validateUser(email, pass)`: the user with that email, password stripped, when `pass`
        matches the stored hash; `None` (null) for an unknown email and for a wrong password alike. */
    method ValidateUser(email: string, pass: string) returns (r: Option<PublicUser>)
      ensures r == Validated(users, bcrypt, email, pass)
    {
      var found := Find(email);
      if found.Some? && bcrypt.compare(pass, users[found.value].password) {
        r := Some(Public(users[found.value]));
      } else {
        r := None;
      }
    }

    /** `login(user)`: signs `{ email, sub: id, name }` and hands the user back unchanged.
        It reads no field but the JWT service: the user array is neither read nor changed. */
    function Login(user: PublicUser): (r: LoginResponse)
      ensures r.user == user
      ensures jwtService.Sound() ==>
                jwtService.verify(r.accessToken) == Some(TokenPayload(user.email, Some(user.id), Some(user.name)))
    {
      LoginResponse(jwtService.sign(TokenPayload(user.email, Some(user.id), Some(user.name))), user)
    }

    /** `login(loginDto)` as the login route calls it: the body has no `id` and no `name`, so
        `sub` and `name` are `undefined`, and nothing is checked before the token is signed. */
    function LoginAsCalled(dto: LoginDto): (r: EchoedLogin)
      ensures r.user == dto
      ensures jwtService.Sound() ==>
                jwtService.verify(r.accessToken) == Some(TokenPayload(dto.email, None, None))
    {
      EchoedLogin(jwtService.sign(TokenPayload(dto.email, None, None)), dto)
    }

    /** For every array of users and every body that does not validate against it (the case in
        which `LoginWithCredentials` fails with `InvalidCredentials`), the route's login still hands
        out a token with no subject and echoes the plaintext password. */
    lemma LoginAsCalledIgnoresCredentials(users: seq<User>, dto: LoginDto)
      requires jwtService.Sound()
      requires Validated(users, bcrypt, dto.email, dto.password).None?
      ensures var r := LoginAsCalled(dto);
              && jwtService.verify(r.accessToken).Some?
              && jwtService.verify(r.accessToken).value.sub.None?
              && r.user.password == dto.password
    {
    }

    /** `login` as its unit test expects it: validate the credentials first, fail with
        `InvalidCredentials` when they do not match, otherwise sign for the validated user. */
    method LoginWithCredentials(dto: LoginDto) returns (r: Result<LoginResponse, AuthError>)
      ensures r.Failure? <==> Validated(users, bcrypt, dto.email, dto.password).None?
      ensures r.Failure? ==> r.error == InvalidCredentials
      ensures r.Success? ==> r.value == Login(Validated(users, bcrypt, dto.email, dto.password).value)
      ensures r.Success? && jwtService.Sound() ==>
                exists i :: 0 <= i < |users| && users[i].email == dto.email
                  && bcrypt.compare(dto.password, users[i].password)
                  && jwtService.verify(r.value.accessToken).Some?
                  && jwtService.verify(r.value.accessToken).value.sub == Some(users[i].id)
    {
      var user := ValidateUser(dto.email, dto.password);
      if user.None? {
        return Failure(InvalidCredentials);
      }
      r := Success(Login(user.value));
    }

    /** `register(dto)`: rejects a taken email, otherwise appends `{ id: users.length + 1, email,
        password: hash, name }` and returns it without the password. */
    method Register(dto: RegisterDto) returns (r: Result<PublicUser, AuthError>)
      requires Valid()
      modifies this
      ensures Valid()
      ensures r == Registered(old(users), bcrypt, dto).result
      ensures users == Registered(old(users), bcrypt, dto).users
    {
      var existing := Find(dto.email);
      if existing.Some? {
        return Failure(EmailAlreadyExists);
      }
      var hashedPassword := bcrypt.hash(dto.password);
      var newUser := User(|users| + 1, dto.email, hashedPassword, dto.name);
      users := users + [newUser];
      r := Success(Public(newUser));
    }
  }
}
