/** The `User` entity and the password-free view of it that is returned to callers. */
module Entity {

  /** A stored user: `id` is the primary key, `email` is declared unique, `password` holds a hash. */
  datatype User = User(id: int, email: string, password: string, name: string)

  /** A user with `password` stripped: `{ password, ...result }`, or a `select` of id, email and name. */
  datatype PublicUser = PublicUser(id: int, email: string, name: string)

  /** The projection that strips the password and keeps every other field. */
  function Public(u: User): (p: PublicUser)
    ensures p.id == u.id && p.email == u.email && p.name == u.name
  {
    PublicUser(u.id, u.email, u.name)
  }
}
