/**
 * `UserRepository`: the thin wrapper over the ORM's `User` table.  The table is
 * a map from primary key to record; `nextId` is the auto-increment counter
 * behind `@PrimaryGeneratedColumn`, and the `unique: true` constraint on
 * `email` is enforced on every write.
 */
module Repository {
  import opened Results
  import opened Entity

  /** The `Partial<User>` handed to `create`: every column but the generated id. */
  datatype UserData = UserData(email: string, password: string, name: string)

  /** The `Partial<User>` handed to `update`: `None` marks a field that is not supplied. */
  datatype UserPatch = UserPatch(email: Option<string>, password: Option<string>, name: Option<string>)

  /** The error the database raises when a write would duplicate an email. */
  datatype StoreError = UniqueViolation

  /** Some record in `table` has exactly this email. */
  ghost predicate EmailTaken(table: map<int, User>, email: string) {
    exists k :: k in table && table[k].email == email
  }

  /** The `unique: true` constraint on the `email` column. */
  ghost predicate UniqueEmails(table: map<int, User>) {
    forall a, b :: a in table && b in table && a != b ==> table[a].email != table[b].email
  }

  /** Every record is stored under its own id. */
  ghost predicate KeyedById(table: map<int, User>) {
    forall k :: k in table ==> table[k].id == k
  }

  /** Saving `patch` onto the record `id` would give it the email of another record. */
  ghost predicate Conflicts(table: map<int, User>, id: int, patch: UserPatch) {
    patch.email.Some? && exists k :: k in table && k != id && table[k].email == patch.email.value
  }

  /** `Object.assign(user, userData)`: every supplied field overwrites the stored one. */
  function Merge(u: User, patch: UserPatch): (m: User)
    ensures m.id == u.id
    ensures m.email == (if patch.email.Some? then patch.email.value else u.email)
    ensures m.password == (if patch.password.Some? then patch.password.value else u.password)
    ensures m.name == (if patch.name.Some? then patch.name.value else u.name)
  {
    User(u.id, patch.email.GetOr(u.email), patch.password.GetOr(u.password), patch.name.GetOr(u.name))
  }

  /** Merging the same patch twice is the same as merging it once, and an empty patch
      changes nothing. */
  lemma MergeIdempotent(u: User, patch: UserPatch)
    ensures Merge(Merge(u, patch), patch) == Merge(u, patch)
    ensures Merge(u, UserPatch(None, None, None)) == u
  {
  }

  class UserRepository {
    /** The `User` table, keyed by primary key. */
    var table: map<int, User>
    /** The next value of the auto-increment sequence. */
    var nextId: int

    ghost predicate Valid()
      reads this
    {
      && KeyedById(table)
      && UniqueEmails(table)
      && 1 <= nextId
      && (forall k :: k in table ==> 1 <= k < nextId)
    }

    constructor ()
      ensures Valid() && table == map[] && nextId == 1
    {
      table := map[];
      nextId := 1;
    }

    /** Under the unique constraint, the record found with an email is the only one holding it. */
    lemma OnlyHolder(id: int, email: string)
      requires Valid()
      requires id in table && table[id].email == email
      ensures forall k :: k in table && table[k].email == email ==> k == id
    {
    }

    /** The table scan behind `where: { email }`, in primary-key order: the key of a record
        with this email, if any. */
    method Locate(email: string) returns (r: Option<int>)
      requires Valid()
      ensures r.Some? ==> r.value in table && table[r.value].email == email
      ensures r.None? <==> !EmailTaken(table, email)
    {
      var id := 1;
      while id < nextId
        invariant 1 <= id <= nextId
        invariant forall k :: k in table && k < id ==> table[k].email != email
      {
        if id in table && table[id].email == email {
          return Some(id);
        }
        id := id + 1;
      }
      return None;
    }

    /** `create(userData)`: saves the record under a fresh id and returns it; a duplicate email
        is refused by the unique constraint and nothing is written. */
    method Create(data: UserData) returns (r: Result<User, StoreError>)
      requires Valid()
      modifies this
      ensures Valid()
      ensures EmailTaken(old(table), data.email) ==>
                r == Failure(UniqueViolation) && table == old(table) && nextId == old(nextId)
      ensures !EmailTaken(old(table), data.email) ==>
                && old(nextId) !in old(table)
                && r == Success(User(old(nextId), data.email, data.password, data.name))
                && table == old(table)[old(nextId) := r.value]
                && nextId == old(nextId) + 1
    {
      var clash := Locate(data.email);
      if clash.Some? {
        return Failure(UniqueViolation);
      }
      var user := User(nextId, data.email, data.password, data.name);
      table := table[nextId := user];
      nextId := nextId + 1;
      r := Success(user);
    }

    /** `findById(id)`: id, email and name of that record, or `None` (null). */
    method FindById(id: int) returns (r: Option<PublicUser>)
      ensures r.Some? <==> id in table
      ensures r.Some? ==> r.value == Public(table[id])
    {
      if id in table {
        r := Some(Public(table[id]));
      } else {
        r := None;
      }
    }

    /** `findByEmail(email)`: id, email and name of the record with that email, or `None` (null). */
    method FindByEmail(email: string) returns (r: Option<PublicUser>)
      requires Valid()
      ensures r.None? <==> !EmailTaken(table, email)
      ensures forall k :: k in table && table[k].email == email ==> r == Some(Public(table[k]))
    {
      var found := Locate(email);
      if found.Some? {
        OnlyHolder(found.value, email);
        r := Some(Public(table[found.value]));
      } else {
        r := None;
      }
    }

    /** `findByEmailWithPassword(email)`: the whole record with that email, hash included, or `None`. */
    method FindByEmailWithPassword(email: string) returns (r: Option<User>)
      requires Valid()
      ensures r.None? <==> !EmailTaken(table, email)
      ensures forall k :: k in table && table[k].email == email ==> r == Some(table[k])
    {
      var found := Locate(email);
      if found.Some? {
        OnlyHolder(found.value, email);
        r := Some(table[found.value]);
      } else {
        r := None;
      }
    }

    /** `findAll()`: id, email and name of every record, each record exactly once.  The scan
        runs in primary-key order; the ORM promises no order, so none is stated. */
    method FindAll() returns (r: seq<PublicUser>)
      requires Valid()
      ensures forall i :: 0 <= i < |r| ==> r[i].id in table && r[i] == Public(table[r[i].id])
      ensures forall k :: k in table ==> Public(table[k]) in r
      ensures forall i, j :: 0 <= i < j < |r| ==> r[i].id != r[j].id
    {
      var id := 1;
      r := [];
      while id < nextId
        invariant 1 <= id <= nextId
        invariant forall i :: 0 <= i < |r| ==> r[i].id < id && r[i].id in table && r[i] == Public(table[r[i].id])
        invariant forall k :: k in table && k < id ==> Public(table[k]) in r
        invariant forall i, j :: 0 <= i < j < |r| ==> r[i].id != r[j].id
      {
        if id in table {
          r := r + [Public(table[id])];
        }
        id := id + 1;
      }
    }

    /** `update(id, userData)`: `None` (null) and no change for a missing id; otherwise the
        record with the supplied fields overwritten, saved and returned.  Saving an email
        another record holds is refused by the unique constraint. */
    method Update(id: int, patch: UserPatch) returns (r: Result<Option<User>, StoreError>)
      requires Valid()
      modifies this
      ensures Valid() && nextId == old(nextId)
      ensures id !in old(table) ==> r == Success(None) && table == old(table)
      ensures id in old(table) && Conflicts(old(table), id, patch) ==>
                r == Failure(UniqueViolation) && table == old(table)
      ensures id in old(table) && !Conflicts(old(table), id, patch) ==>
                && r == Success(Some(Merge(old(table)[id], patch)))
                && table == old(table)[id := Merge(old(table)[id], patch)]
    {
      if id !in table {
        return Success(None);
      }
      var user := Merge(table[id], patch);
      if patch.email.Some? {
        var holder := Locate(patch.email.value);
        if holder.Some? && holder.value != id {
          return Failure(UniqueViolation);
        }
      }
      table := table[id := user];
      r := Success(Some(user));
    }

    /** `delete(id)`: `false` and no change for a missing id; otherwise removes that record only. */
    method Delete(id: int) returns (deleted: bool)
      requires Valid()
      modifies this
      ensures Valid() && nextId == old(nextId)
      ensures deleted == (id in old(table))
      ensures table == old(table) - {id}
    {
      if id !in table {
        return false;
      }
      table := table - {id};
      deleted := true;
    }

    /** `existsByEmail(email)`: whether some record has exactly this email. */
    method ExistsByEmail(email: string) returns (b: bool)
      requires Valid()
      ensures b <==> EmailTaken(table, email)
    {
      var k := Locate(email);
      b := k.Some?;
    }
  }
}
