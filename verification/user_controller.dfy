/** The account handlers: registration, login, profile read and profile
    update, over the user store. */
module UserController {
  import opened Optional
  import opened Http
  import opened Persistence
  import Credentials

  /** What every returned user record shows in place of the password hash. */
  const Mask := "xxxxxxxxxxxxxxxxxxxx"
  const MinPasswordLength := 5

  const TooShort := "password is too short! - make sure it is at least 5 characters"
  const Created := "user created!"
  const LoginFailed := "wrong password or username!"
  const LoggedIn := "user logged in!"
  const Delivered := "user details delivered!"
  const NotOwnProfile := "you can only modify your own profile!"
  const ProfileUpdated := "user profile updated!"
  /** The runtime's TypeError text when the masking assignment meets a null record. */
  const NullRecord := "Cannot set property 'password' of null"

  /** The payload of a signed session token. */
  datatype Token = Token(id: nat, admin: bool)

  /** A handler's answer: status, message, and the user record and token
      the JSON body carries, if any; or nothing at all, when a promise
      chain breaks before any response is sent. */
  datatype Reply =
    | Reply(status: int, message: string, user: Option<User>, token: Option<Token>)
    | NoReply

  /** The message the store's refusal carries back to the client. */
  function InsertErrorMessage(e: InsertError): (m: string)
    ensures |m| > 0
  {
    match e
    case NotNull(c) => c + " cannot be null"
    case NotUnique(c) => c + " must be unique"
  }

  /** The record as it is sent to a client: the password replaced by the
      mask, every other column as stored. */
  function Masked(u: User): (m: User)
    ensures m.password == Mask
    ensures m.(password := u.password) == u
  {
    u.(password := Mask)
  }

  /** The mask is not a hash: a masked record verifies no password at all. */
  lemma MaskVerifiesNothing(u: User, p: string)
    ensures !Credentials.Matches(p, Masked(u).password)
  {
  }

  // ---------------------------------------------------------------------
  // createUser

  /** The registration gate: the password is undefined or has fewer than
      five characters. */
  predicate PasswordTooShort(body: Body) {
    "password" !in body || |body["password"]| < MinPasswordLength
  }

  /** Five characters is the shortest password that passes the gate. */
  lemma PasswordGateBoundary()
    ensures PasswordTooShort(map[])
    ensures PasswordTooShort(map["password" := "abcd"])
    ensures !PasswordTooShort(map["password" := "abcde"])
  {
  }

  /** createUser: refuses a short password; otherwise hashes it with a
      fresh salt and inserts the user with admin off, answering 201 with the
      masked record and a token, or 400 with the store's refusal. */
  method CreateUser(store: Store, body: Body, salt: Credentials.Salt) returns (reply: Reply)
    requires store.Valid()
    modifies store
    ensures store.Valid()
    ensures store.centers == old(store.centers)
    ensures reply.Reply? && (reply.status == 201 || reply.status == 400)
    ensures PasswordTooShort(body) ==> reply == Reply(400, TooShort, None, None)
    ensures reply.status == 201 <==>
      && !PasswordTooShort(body) && "username" in body && "email" in body
      && !old(store.HoldsUsername(Field(body, "username")))
      && !old(store.HoldsEmail(Field(body, "email")))
    ensures reply.status == 400 ==> store.users == old(store.users) && reply.user.None? && reply.token.None?
    ensures reply.status == 201 ==>
      var id := old(store.nextId);
      && id !in old(store.users) && id in store.users
      && store.users == old(store.users)[id := store.users[id]]
      && store.users[id].id == id
      && !store.users[id].admin
      && Credentials.Matches(body["password"], store.users[id].password)
      && Some(store.users[id].username) == Field(body, "username")
      && Some(store.users[id].email) == Field(body, "email")
      && store.users[id].fullname == Field(body, "fullname")
      && reply == Reply(201, Created, Some(Masked(store.users[id])), Some(Token(id, false)))
  {
    if PasswordTooShort(body) {
      return Reply(400, TooShort, None, None);
    }
    var password := Credentials.Hash(body["password"], salt);
    var r := store.Insert(Field(body, "username"), Field(body, "email"), password, Field(body, "fullname"), false);
    match r
    case Err(e) =>
      reply := Reply(400, InsertErrorMessage(e), None, None);
    case Ok(user) =>
      reply := Reply(201, Created, Some(Masked(user)), Some(Token(user.id, false)));
  }

  // ---------------------------------------------------------------------
  // loginUser

  /** loginUser: 401 for an unknown username and for a wrong password
      alike; 200 with a token carrying the stored id and admin flag when the
      password verifies. A known user with no password sent gets nothing:
      the unchained comparison rejects and no response follows. */
  function LoginUser(store: Store, body: Body): (r: Reply)
    requires store.Valid()
    reads store
    ensures r.NoReply? <==> store.HoldsUsername(Field(body, "username")) && "password" !in body
    ensures r.Reply? ==> r.user.None? && (r.status == 200 || r == Reply(401, LoginFailed, None, None))
    ensures r.Reply? && r.status == 200 <==> exists id | id in store.users ::
      && Some(store.users[id].username) == Field(body, "username")
      && "password" in body && Credentials.Matches(body["password"], store.users[id].password)
    ensures r.Reply? && r.status == 200 ==> exists id | id in store.users ::
      && Some(store.users[id].username) == Field(body, "username")
      && r == Reply(200, LoggedIn, None, Some(Token(id, store.users[id].admin)))
  {
    match store.FindByUsername(Field(body, "username"))
    case None => Reply(401, LoginFailed, None, None)
    case Some(user) =>
      match Field(body, "password")
      case None => NoReply
      case Some(p) =>
        if Credentials.Matches(p, user.password) then
          Reply(200, LoggedIn, None, Some(Token(user.id, user.admin)))
        else
          Reply(401, LoginFailed, None, None)
  }

  /** A client cannot tell an unknown username from a wrong password. */
  lemma LoginFailuresIndistinguishable(store: Store, unknown: Body, wrong: Body)
    requires store.Valid()
    requires !store.HoldsUsername(Field(unknown, "username"))
    requires store.HoldsUsername(Field(wrong, "username")) && "password" in wrong
    requires forall id | id in store.users && Some(store.users[id].username) == Field(wrong, "username") ::
      !Credentials.Matches(wrong["password"], store.users[id].password)
    ensures LoginUser(store, unknown) == LoginUser(store, wrong) == Reply(401, LoginFailed, None, None)
  {
  }

  /** A stored record whose hash was made from p logs in with p, and the
      token names that record. */
  lemma StoredPasswordLogsIn(store: Store, id: nat, p: string, salt: Credentials.Salt)
    requires store.Valid() && id in store.users
    requires store.users[id].password == Credentials.Hash(p, salt)
    ensures LoginUser(store, map["username" := store.users[id].username, "password" := p])
      == Reply(200, LoggedIn, None, Some(Token(id, store.users[id].admin)))
  {
    var body := map["username" := store.users[id].username, "password" := p];
    assert Field(body, "username") == Some(store.users[id].username);
    assert Field(body, "password") == Some(p);
  }

  /** Registering and then logging in with the same body yields a token
      for the new record, without admin rights. */
  method RegisterThenLogIn(store: Store, body: Body, salt: Credentials.Salt) returns (created: Reply, login: Reply)
    requires store.Valid()
    modifies store
    ensures created.Reply? && created.status == 201 ==>
      && login == Reply(200, LoggedIn, None, Some(Token(old(store.nextId), false)))
      && login.token == created.token
  {
    created := CreateUser(store, body, salt);
    login := LoginUser(store, body);
  }

  // ---------------------------------------------------------------------
  // getUser

  /** getUser: 200 with the caller's record, password masked. With no
      record for the id, the masking assignment throws and the catch
      answers 400 with the runtime's message. The store is only read. */
  function GetUser(store: Store, id: nat): (r: Reply)
    reads store
    ensures r.Reply? && r.token.None?
    ensures r.status == 200 <==> id in store.users
    ensures id in store.users ==>
      && r.user.Some? && r.user.value.password == Mask
      && r.user.value.(password := store.users[id].password) == store.users[id]
      && r.message == Delivered
    ensures id !in store.users ==> r == Reply(400, NullRecord, None, None)
  {
    if id in store.users then Reply(200, Delivered, Some(Masked(store.users[id])), None)
    else Reply(400, NullRecord, None, None)
  }

  // ---------------------------------------------------------------------
  // modifyUserProfile

  /** The profile columns a client may change. */
  const ProfileFields := ["fullname", "description", "tagline", "picture"]

  /** JavaScript truthiness of an optional string: present and non-empty. */
  predicate Truthy(v: Option<string>) {
    v.Some? && v.value != ""
  }

  /** `given || previous`. */
  function Or(given: Option<string>, previous: Option<string>): Option<string> {
    if Truthy(given) then given else previous
  }

  /** The profile column named f. */
  function Profile(u: User, f: string): Option<string>
    requires f in ProfileFields
  {
    if f == "fullname" then u.fullname
    else if f == "description" then u.description
    else if f == "tagline" then u.tagline
    else u.picture
  }

  /** The record after the profile update: each profile column takes the
      body's value when that value is a non-empty string, and keeps its own
      value otherwise; no other column changes. */
  function MergeProfile(u: User, body: Body): (m: User)
    ensures forall f | f in ProfileFields ::
      Profile(m, f) == if f in body && body[f] != "" then Some(body[f]) else Profile(u, f)
    ensures m.(fullname := u.fullname, description := u.description,
               tagline := u.tagline, picture := u.picture) == u
  {
    u.(fullname := Or(Field(body, "fullname"), u.fullname),
       description := Or(Field(body, "description"), u.description),
       tagline := Or(Field(body, "tagline"), u.tagline),
       picture := Or(Field(body, "picture"), u.picture))
  }

  /** Sending the same update twice is sending it once. */
  lemma MergeProfileIdempotent(u: User, body: Body)
    ensures MergeProfile(MergeProfile(u, body), body) == MergeProfile(u, body)
  {
  }

  /** No update can clear a profile column that holds text: an empty
      string in the body keeps the old value. */
  lemma MergeNeverClears(u: User, body: Body, f: string)
    requires f in ProfileFields && Truthy(Profile(u, f))
    ensures Truthy(Profile(MergeProfile(u, body), f))
  {
  }

  /** A body carrying only a tagline changes only the tagline. */
  lemma TaglineOnlyUpdate(u: User, t: string)
    requires t != ""
    ensures MergeProfile(u, map["tagline" := t]) == u.(tagline := Some(t))
  {
  }

  /** modifyUserProfile: 403 and no change when the caller has no record;
      otherwise the merged record is stored and returned, password masked. */
  method ModifyUserProfile(store: Store, id: nat, body: Body) returns (reply: Reply)
    requires store.Valid()
    modifies store
    ensures store.Valid()
    ensures store.centers == old(store.centers)
    ensures id !in old(store.users) ==>
      reply == Reply(403, NotOwnProfile, None, None) && store.users == old(store.users)
    ensures id in old(store.users) ==>
      && store.users == old(store.users)[id := MergeProfile(old(store.users)[id], body)]
      && reply == Reply(200, ProfileUpdated, Some(Masked(store.users[id])), None)
  {
    if id !in store.users {
      return Reply(403, NotOwnProfile, None, None);
    }
    var merged := MergeProfile(store.users[id], body);
    store.Update(merged);
    reply := Reply(200, ProfileUpdated, Some(Masked(merged)), None);
  }
}
