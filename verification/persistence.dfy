/** The persistence layer as the account logic and the validation stages
    consume it: user records found by id, by username and by email, and the
    set of event-center ids. */
module Persistence {
  import opened Optional
  import Text

  /** A user record. Absent optional columns are None (SQL NULL). */
  datatype User = User(
    id: nat,
    username: string,
    email: string,
    password: string,
    fullname: Option<string>,
    description: Option<string>,
    tagline: Option<string>,
    picture: Option<string>,
    admin: bool)

  /** Why the persistence layer refuses to insert a record. */
  datatype InsertError = NotNull(column: string) | NotUnique(column: string)

  /** The answer to a center lookup by route parameter. */
  datatype CenterLookup = Found | NotFound | LookupFailed

  class Store {
    var users: map<nat, User>
    var byUsername: map<string, nat>
    var byEmail: map<string, nat>
    var centers: set<int>
    var nextId: nat

    /** Records are keyed by their id, ids below nextId are taken, and the
        username and email indexes are exact inverses of the records, so
        usernames and emails are unique. */
    ghost predicate Valid()
      reads this
    {
      && (forall id | id in users ::
            && users[id].id == id && id < nextId
            && users[id].username in byUsername && byUsername[users[id].username] == id
            && users[id].email in byEmail && byEmail[users[id].email] == id)
      && (forall name | name in byUsername ::
            byUsername[name] in users && users[byUsername[name]].username == name)
      && (forall e | e in byEmail ::
            byEmail[e] in users && users[byEmail[e]].email == e)
    }

    /** An empty user table over a given set of event centers; ids start at 1. */
    constructor (centers: set<int>)
      ensures Valid()
      ensures users == map[] && this.centers == centers
    {
      users := map[];
      byUsername := map[];
      byEmail := map[];
      this.centers := centers;
      nextId := 1;
    }

    /** Some stored record has this username. */
    ghost predicate HoldsUsername(name: Option<string>)
      reads this
    {
      exists id | id in users :: Some(users[id].username) == name
    }

    /** Some stored record has this email. */
    ghost predicate HoldsEmail(email: Option<string>)
      reads this
    {
      exists id | id in users :: Some(users[id].email) == email
    }

    /** User.findOne({ where: { username } }): the record with that
        username, if any. An undefined username matches no record. */
    function FindByUsername(name: Option<string>): (r: Option<User>)
      requires Valid()
      reads this
      ensures r.Some? ==> name.Some? && r.value.id in users && users[r.value.id] == r.value
                          && r.value.username == name.value
      ensures r.None? ==> name.None? || forall id | id in users :: users[id].username != name.value
    {
      match name
      case None => None
      case Some(n) => if n in byUsername then Some(users[byUsername[n]]) else None
    }

    /** User.findOne({ where: { email } }). */
    function FindByEmail(email: Option<string>): (r: Option<User>)
      requires Valid()
      reads this
      ensures r.Some? ==> email.Some? && r.value.id in users && users[r.value.id] == r.value
                          && r.value.email == email.value
      ensures r.None? ==> email.None? || forall id | id in users :: users[id].email != email.value
    {
      match email
      case None => None
      case Some(e) => if e in byEmail then Some(users[byEmail[e]]) else None
    }

    /** EventCenter.findOne({ where: { id: centerId } }): the id column is
        an integer, so a parameter that does not read as one makes the
        query fail rather than come back empty. */
    function FindCenter(centerId: string): (r: CenterLookup)
      reads this
      ensures r == LookupFailed <==> Text.StrictInt(centerId).None?
      ensures r == Found <==> Text.StrictInt(centerId).Some? && Text.StrictInt(centerId).value in centers
    {
      match Text.StrictInt(centerId)
      case None => LookupFailed
      case Some(id) => if id in centers then Found else NotFound
    }

    /** User.create: inserts a record under a fresh id, or refuses a record
        whose username or email is undefined or already taken. */
    method Insert(username: Option<string>, email: Option<string>, password: string,
                  fullname: Option<string>, admin: bool)
      returns (r: Result<User, InsertError>)
      requires Valid()
      modifies this
      ensures Valid()
      ensures centers == old(centers)
      ensures r.Ok? <==> && username.Some? && email.Some?
                         && username.value !in old(byUsername) && email.value !in old(byEmail)
      ensures r.Err? ==> users == old(users)
      ensures r.Ok? ==>
        && r.value == User(old(nextId), username.value, email.value, password, fullname,
                           None, None, None, admin)
        && old(nextId) !in old(users)
        && users == old(users)[old(nextId) := r.value]
    {
      if username.None? {
        return Err(NotNull("username"));
      }
      if email.None? {
        return Err(NotNull("email"));
      }
      if username.value in byUsername {
        return Err(NotUnique("username"));
      }
      if email.value in byEmail {
        return Err(NotUnique("email"));
      }
      var u := User(nextId, username.value, email.value, password, fullname, None, None, None, admin);
      users := users[nextId := u];
      byUsername := byUsername[u.username := nextId];
      byEmail := byEmail[u.email := nextId];
      nextId := nextId + 1;
      r := Ok(u);
    }

    /** instance.update: replaces a record's columns, keeping its id,
        username and email. */
    method Update(u: User)
      requires Valid() && u.id in users
      requires users[u.id].username == u.username && users[u.id].email == u.email
      modifies this
      ensures Valid()
      ensures users == old(users)[u.id := u]
      ensures byUsername == old(byUsername) && byEmail == old(byEmail)
      ensures centers == old(centers) && nextId == old(nextId)
    {
      users := users[u.id := u];
    }
  }
}
