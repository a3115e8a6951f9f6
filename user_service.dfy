/**
 * `UserService`: the business rules over the injected repository — a duplicate
 * email is refused before anything is written, passwords are hashed before they
 * are stored, and a missing record becomes a not-found error.
 */
module Service {
  import opened Results
  import opened Crypto
  import opened Entity
  import opened Repository

  datatype CreateUserDto = CreateUserDto(email: string, password: string, name: string)

  /** Every field of an update is optional. */
  type UpdateUserDto = UserPatch

  /** `BadRequestException`, `NotFoundException`, and a storage error passed through unchanged. */
  datatype ServiceError = BadRequest | NotFound | Store(cause: StoreError)

  /** JavaScript truthiness of an optional string: the only falsy values are `undefined` and `""`. */
  predicate Truthy(s: Option<string>): (t: bool)
    ensures t <==> s != None && s != Some("")
  {
    s.Some? && s.value != ""
  }

  class UserService {
    const userRepository: UserRepository
    const bcrypt: Bcrypt

    ghost predicate Valid()
      reads userRepository
    {
      userRepository.Valid()
    }

    constructor (userRepository: UserRepository, bcrypt: Bcrypt)
      ensures this.userRepository == userRepository && this.bcrypt == bcrypt
    {
      this.userRepository := userRepository;
      this.bcrypt := bcrypt;
    }

    /** `hashPassword(password)`: a hash the password itself will match. */
    function HashPassword(password: string): (hashed: string)
      ensures bcrypt.Sound() ==> bcrypt.compare(password, hashed)
    {
      bcrypt.hash(password)
    }

    /** `validatePassword(plain, hashed)`: the bcrypt comparison; a password passes against its own hash. */
    function ValidatePassword(plainPassword: string, hashedPassword: string): (ok: bool)
      ensures bcrypt.Sound() && hashedPassword == bcrypt.hash(plainPassword) ==> ok
    {
      bcrypt.compare(plainPassword, hashedPassword)
    }

    /** The copy `update` hands to the repository: the password replaced by its hash when it is
        truthy, an absent or empty password passed through as given, every other field untouched. */
    function UpdateData(dto: UpdateUserDto): (data: UserPatch)
      ensures data.email == dto.email && data.name == dto.name
      ensures !Truthy(dto.password) ==> data.password == dto.password
      ensures Truthy(dto.password) ==> data.password.Some?
      ensures Truthy(dto.password) && bcrypt.Sound() ==> ValidatePassword(dto.password.value, data.password.value)
    {
      if Truthy(dto.password) then dto.(password := Some(HashPassword(dto.password.value))) else dto
    }

    /** `create(dto)`: `BadRequest` with nothing written when the email is taken; otherwise the
        repository stores `{ ...dto, password: hash }` under a fresh id and that record is returned. */
    method Create(dto: CreateUserDto) returns (r: Result<User, ServiceError>)
      requires Valid()
      modifies userRepository
      ensures Valid()
      ensures EmailTaken(old(userRepository.table), dto.email) ==>
                r == Failure(BadRequest) && unchanged(userRepository)
      ensures !EmailTaken(old(userRepository.table), dto.email) ==>
                && r == Success(User(old(userRepository.nextId), dto.email, HashPassword(dto.password), dto.name))
                && old(userRepository.nextId) !in old(userRepository.table)
                && userRepository.table == old(userRepository.table)[r.value.id := r.value]
                && userRepository.nextId == old(userRepository.nextId) + 1
      ensures r.Success? && bcrypt.Sound() ==> ValidatePassword(dto.password, r.value.password)
    {
      var emailExists := userRepository.ExistsByEmail(dto.email);
      if emailExists {
        return Failure(BadRequest);
      }
      var hashedPassword := HashPassword(dto.password);
      var saved := userRepository.Create(UserData(dto.email, hashedPassword, dto.name));
      assert saved.Success?;
      r := Success(saved.value);
    }

    /** `findAll()`: the repository's password-free listing, unchanged. */
    method FindAll() returns (r: seq<PublicUser>)
      requires Valid()
      ensures forall i :: 0 <= i < |r| ==> r[i].id in userRepository.table && r[i] == Public(userRepository.table[r[i].id])
      ensures forall k :: k in userRepository.table ==> Public(userRepository.table[k]) in r
      ensures forall i, j :: 0 <= i < j < |r| ==> r[i].id != r[j].id
    {
      r := userRepository.FindAll();
    }

    /** `findOne(id)`: the password-free record, or `NotFound` when the repository yields null. */
    method FindOne(id: int) returns (r: Result<PublicUser, ServiceError>)
      ensures id in userRepository.table ==> r == Success(Public(userRepository.table[id]))
      ensures id !in userRepository.table ==> r == Failure(NotFound)
    {
      var user := userRepository.FindById(id);
      if user.None? {
        return Failure(NotFound);
      }
      r := Success(user.value);
    }

    /** `findByEmail(email)`: the whole record, hash included, for authentication; `None` (null) if absent. */
    method FindByEmail(email: string) returns (r: Option<User>)
      requires Valid()
      ensures r.None? <==> !EmailTaken(userRepository.table, email)
      ensures forall k :: k in userRepository.table && userRepository.table[k].email == email
                ==> r == Some(userRepository.table[k])
    {
      r := userRepository.FindByEmailWithPassword(email);
    }

    /** `update(id, dto)`: hashes a truthy password on a copy of the dto, then merges the copy into
        the record; `NotFound` with nothing changed when the repository yields null. */
    method Update(id: int, dto: UpdateUserDto) returns (r: Result<User, ServiceError>)
      requires Valid()
      modifies userRepository
      ensures Valid() && userRepository.nextId == old(userRepository.nextId)
      ensures id !in old(userRepository.table) ==>
                r == Failure(NotFound) && userRepository.table == old(userRepository.table)
      ensures id in old(userRepository.table) && Conflicts(old(userRepository.table), id, dto) ==>
                r == Failure(Store(UniqueViolation)) && userRepository.table == old(userRepository.table)
      ensures id in old(userRepository.table) && !Conflicts(old(userRepository.table), id, dto) ==>
                && r == Success(Merge(old(userRepository.table)[id], UpdateData(dto)))
                && userRepository.table == old(userRepository.table)[id := r.value]
      ensures r.Success? && Truthy(dto.password) && bcrypt.Sound() ==>
                ValidatePassword(dto.password.value, r.value.password)
    {
      var updateData := UpdateData(dto);
      var updated := userRepository.Update(id, updateData);
      match updated
      case Failure(e) =>
        r := Failure(Store(e));
      case Success(found) =>
        if found.None? {
          return Failure(NotFound);
        }
        r := Success(found.value);
    }

    /** `remove(id)`: deletes the record, or fails with `NotFound` when the repository reports
        that there was none; afterwards no record has that id. */
    method Remove(id: int) returns (r: Outcome<ServiceError>)
      requires Valid()
      modifies userRepository
      ensures Valid() && userRepository.nextId == old(userRepository.nextId)
      ensures r == (if id in old(userRepository.table) then Pass else Fail(NotFound))
      ensures userRepository.table == old(userRepository.table) - {id}
    {
      var deleted := userRepository.Delete(id);
      if !deleted {
        return Fail(NotFound);
      }
      r := Pass;
    }
  }
}
