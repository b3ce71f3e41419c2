/** The request-validation middleware, stage by stage, as the stages are
    written: each one reads the request (and perhaps the store) and calls
    next(), sends a response, or rewrites req.body in place. */
module Validation {
  import opened Optional
  import opened Http
  import opened Persistence
  import Text
  import Credentials

  const PasswordMismatch := "Wrong password or username!"
  const UnknownUsername := "Username does not exist!"
  const UsernameTaken := "Username already taken!"
  const EmailTaken := "Email already taken!"
  const BadParam := "Param type is not invalid!"
  const UnknownCenter := "Cannot find specified event center!"
  /** Stands for the persistence layer's own error text. */
  const LookupError := "event center lookup failed"

  function RequiredMessage(field: string): string {
    field + " required in body!"
  }

  // ---------------------------------------------------------------------
  // checkBodyContains

  /** The responses checkBodyContains attempts to send for the listed
      fields, in list order: one 400 for every field whose body value is
      undefined. Only the first of them reaches the client (see
      CheckBodyContains). */
  function MissingResponses(fields: seq<string>, body: Body): (sent: seq<Response>)
    ensures |sent| <= |fields|
  {
    if fields == [] then []
    else
      var init, last := fields[..|fields| - 1], fields[|fields| - 1];
      MissingResponses(init, body) + if last in body then [] else [Response(400, RequiredMessage(last))]
  }

  /** Nothing is attempted exactly when every field is present. */
  lemma {:induction false} NothingSentIffAllPresent(fields: seq<string>, body: Body)
    ensures MissingResponses(fields, body) == [] <==> forall p | p in fields :: p in body
  {
    if fields != [] {
      var init, last := fields[..|fields| - 1], fields[|fields| - 1];
      assert fields == init + [last];
      NothingSentIffAllPresent(init, body);
    }
  }

  /** Every attempted response is a 400 naming a missing field, and every
      missing field is named by one. */
  lemma {:induction false} SentExactlyForMissing(fields: seq<string>, body: Body)
    ensures forall r | r in MissingResponses(fields, body) ::
      exists p | p in fields && p !in body :: r == Response(400, RequiredMessage(p))
    ensures forall p | p in fields && p !in body :: Response(400, RequiredMessage(p)) in MissingResponses(fields, body)
  {
    if fields != [] {
      var init, last := fields[..|fields| - 1], fields[|fields| - 1];
      var t := if last in body then [] else [Response(400, RequiredMessage(last))];
      assert fields == init + [last];
      assert MissingResponses(fields, body) == MissingResponses(init, body) + t;
      SentExactlyForMissing(init, body);
    }
  }

  /** Field order is response order: the responses for a + b are those for
      a followed by those for b. */
  lemma {:induction false} MissingResponsesAppend(a: seq<string>, b: seq<string>, body: Body)
    ensures MissingResponses(a + b, body) == MissingResponses(a, body) + MissingResponses(b, body)
  {
    if b == [] {
      assert a + b == a;
    } else {
      var ab, init, last := a + b, b[..|b| - 1], b[|b| - 1];
      assert ab[..|ab| - 1] == a + init && ab[|ab| - 1] == last;
      MissingResponsesAppend(a, init, body);
    }
  }

  /** The responses a stage that attempts the given ones gets out: a
      response can only be sent while no headers have been sent, so only the
      first attempt is delivered. */
  function Delivered(attempted: seq<Response>): (d: seq<Response>)
    ensures |d| <= 1 && d <= attempted
    ensures d == [] <==> attempted == []
  {
    if attempted == [] then [] else [attempted[0]]
  }

  /** checkBodyContains(...fields): walks the fields, sending a 400 for each
      undefined one, then calls next(). The first send goes out; a second
      send finds the headers already sent and throws, which leaves the walk
      before next() is reached and hands the error to the framework
      (`threw`), so no later stage or handler runs. With at most one field
      missing, next() is called once, even after the 400. */
  method CheckBodyContains(fields: seq<string>, req: Request)
    returns (delivered: seq<Response>, nextCalls: nat, threw: bool)
    ensures delivered == Delivered(MissingResponses(fields, req.body))
    ensures threw <==> |MissingResponses(fields, req.body)| >= 2
    ensures nextCalls == if threw then 0 else 1
  {
    delivered, threw := [], false;
    var i := 0;
    while i < |fields| && !threw
      invariant 0 <= i <= |fields|
      invariant delivered == Delivered(MissingResponses(fields[..i], req.body))
      invariant threw <==> |MissingResponses(fields[..i], req.body)| >= 2
    {
      assert fields[..i + 1] == fields[..i] + [fields[i]];
      if fields[i] !in req.body {
        var headersSent := delivered != [];
        if headersSent {
          threw := true;
        } else {
          delivered := [Response(400, RequiredMessage(fields[i]))];
        }
      }
      i := i + 1;
    }
    MissingResponsesAppend(fields[..i], fields[i..], req.body);
    assert fields[..i] + fields[i..] == fields;
    nextCalls := if threw then 0 else 1;
  }

  /** The stage as written lets a request with one missing field through:
      with username and password required and only a username sent, it
      sends the 400 for the password and still calls next(). */
  method MissingPasswordStillCallsNext() returns (delivered: seq<Response>, nextCalls: nat, threw: bool)
    ensures delivered == [Response(400, RequiredMessage("password"))]
    ensures nextCalls == 1 && !threw
  {
    var req := new Request(map["username" := "bob"]);
    delivered, nextCalls, threw := CheckBodyContains(["username", "password"], req);
    assert "password" !in req.body;
  }

  /** With two fields missing, only the first 400 goes out and the second
      send throws before next(). */
  method TwoMissingFieldsThrow() returns (delivered: seq<Response>, nextCalls: nat, threw: bool)
    ensures delivered == [Response(400, RequiredMessage("username"))]
    ensures nextCalls == 0 && threw
  {
    var req := new Request(map[]);
    delivered, nextCalls, threw := CheckBodyContains(["username", "password"], req);
  }

  /** CORRECTED checkBodyContains, not the code as written: the stage the
      messages evidently intend, which answers 400 for the first missing
      field (in list order) and calls next() only when every field is there. */
  function RequireFields(fields: seq<string>, body: Body): (r: Outcome)
    ensures r.Next? <==> forall p | p in fields :: p in body
    ensures !r.Next? ==> exists i | 0 <= i < |fields| ::
      && fields[i] !in body && (forall j | 0 <= j < i :: fields[j] in body)
      && r == Respond(400, RequiredMessage(fields[i]))
  {
    if fields == [] then Next
    else if fields[0] !in body then Respond(400, RequiredMessage(fields[0]))
    else
      var r := RequireFields(fields[1..], body);
      assert forall p | p in fields :: p == fields[0] || p in fields[1..];
      if r.Respond? then
        var i :| 0 <= i < |fields| - 1 && fields[1..][i] !in body
                 && (forall j | 0 <= j < i :: fields[1..][j] in body)
                 && r == Respond(400, RequiredMessage(fields[1..][i]));
        assert fields[i + 1] !in body && forall j | 0 <= j < i + 1 :: fields[j] in body;
        r
      else r
  }

  /** The corrected stage sends exactly the response the stage as written
      delivers, and calls next() exactly when that one attempts no response. */
  lemma {:induction false} RequireFieldsSendsFirstMissing(fields: seq<string>, body: Body)
    ensures RequireFields(fields, body).Next? <==> MissingResponses(fields, body) == []
    ensures RequireFields(fields, body).Respond? ==>
      var r := RequireFields(fields, body);
      Delivered(MissingResponses(fields, body)) == [Response(r.status, r.message)]
  {
    if fields != [] {
      MissingResponsesAppend([fields[0]], fields[1..], body);
      assert [fields[0]] + fields[1..] == fields;
      assert [fields[0]][..0] == [];
      if fields[0] in body {
        RequireFieldsSendsFirstMissing(fields[1..], body);
      }
    }
  }

  // ---------------------------------------------------------------------
  // trimBodyKeys

  /** Every string of order is a key of body, and every key is in order. */
  ghost predicate Enumerates(order: seq<string>, keys: set<string>) {
    forall k :: k in order <==> k in keys
  }

  /** The body after `body[k.trim()] = body[k]` for each k of order in
      turn (each k read from the body as it stands at that point). */
  function TrimKeysFrom(body: Body, order: seq<string>): (r: Body)
    ensures body.Keys <= r.Keys
    decreases |order|
  {
    if order == [] then body
    else
      var k := order[0];
      TrimKeysFrom(if k in body then body[Text.Trim(k) := body[k]] else body, order[1..])
  }

  /** trimBodyKeys: for every key of the body, in enumeration order, copy
      the value under the trimmed key; then call next(). */
  method TrimBodyKeys(req: Request, order: seq<string>) returns (nextCalls: nat)
    requires Enumerates(order, req.body.Keys)
    modifies req
    ensures req.body == TrimKeysFrom(old(req.body), order)
    ensures nextCalls == 1
  {
    for i := 0 to |order|
      invariant forall k | k in order :: k in req.body
      invariant TrimKeysFrom(req.body, order[i..]) == TrimKeysFrom(old(req.body), order)
    {
      var k := order[i];
      assert order[i..][1..] == order[i + 1..];
      req.body := req.body[Text.Trim(k) := req.body[k]];
    }
    nextCalls := 1;
  }

  /** No key is removed: the keys afterwards are the original keys and
      their trimmed forms. */
  lemma {:induction false} TrimKeysKeySet(body: Body, order: seq<string>)
    requires forall k | k in order :: k in body
    ensures TrimKeysFrom(body, order).Keys == body.Keys + set k | k in order :: Text.Trim(k)
    decreases |order|
  {
    if order != [] {
      var k := order[0];
      var next := body[Text.Trim(k) := body[k]];
      TrimKeysKeySet(next, order[1..]);
      assert (set j | j in order :: Text.Trim(j))
          == {Text.Trim(k)} + set j | j in order[1..] :: Text.Trim(j);
    }
  }

  /** No two distinct keys trim to the same string. */
  ghost predicate NoTrimCollisions(keys: set<string>) {
    forall j, k | j in keys && k in keys && Text.Trim(j) == Text.Trim(k) :: j == k
  }

  /** What TrimKeysFrom keeps true while it runs over keys without
      collisions: every original key keeps its value, and a trimmed key
      already present holds its original key's value. */
  ghost predicate KeysIntact(orig: Body, cur: Body) {
    forall k | k in orig ::
      && k in cur && cur[k] == orig[k]
      && (Text.Trim(k) in cur ==> cur[Text.Trim(k)] == orig[k])
  }

  lemma {:induction false} TrimKeysKeepsIntact(orig: Body, cur: Body, order: seq<string>)
    requires NoTrimCollisions(orig.Keys)
    requires forall k | k in order :: k in orig
    requires KeysIntact(orig, cur)
    ensures KeysIntact(orig, TrimKeysFrom(cur, order))
    decreases |order|
  {
    if order != [] {
      var k0 := order[0];
      var next := cur[Text.Trim(k0) := cur[k0]];
      forall k | k in orig
        ensures k in next && next[k] == orig[k]
        ensures Text.Trim(k) in next ==> next[Text.Trim(k)] == orig[k]
      {
        if k == Text.Trim(k0) {
          Text.TrimIdempotent(k0);
        }
      }
      TrimKeysKeepsIntact(orig, next, order[1..]);
    }
  }

  /** When no two keys trim alike, trimBodyKeys keeps every original entry
      and adds each value under its trimmed key too. */
  lemma TrimKeysValues(body: Body, order: seq<string>)
    requires Enumerates(order, body.Keys)
    requires NoTrimCollisions(body.Keys)
    ensures forall k | k in body :: TrimKeysFrom(body, order)[k] == body[k]
    ensures forall k | k in body :: Text.Trim(k) in TrimKeysFrom(body, order)
    ensures forall k | k in body :: TrimKeysFrom(body, order)[Text.Trim(k)] == body[k]
  {
    forall k | k in body ensures Text.Trim(k) in body ==> body[Text.Trim(k)] == body[k] {
      if Text.Trim(k) in body {
        Text.TrimIdempotent(k);
      }
    }
    TrimKeysKeepsIntact(body, body, order);
    TrimKeysKeySet(body, order);
  }

  /** The untrimmed key stays beside the trimmed one: a body holding
      " name" ends up holding both " name" and "name". */
  lemma TrimKeysLeavesStaleKey()
    ensures TrimKeysFrom(map[" name" := "bob"], [" name"]) == map[" name" := "bob", "name" := "bob"]
  {
    assert Text.Trim(" name") == "name" by {
      assert " name" == " " + "name" + "";
      Text.TrimOfPadded(" ", "name", "");
    }
    assert [" name"][1..] == [];
  }

  // ---------------------------------------------------------------------
  // trimBodyValues

  /** The body with every listed field that is present trimmed, and every
      other field as it was. */
  function TrimmedValues(body: Body, fields: seq<string>): (r: Body)
    ensures r.Keys == body.Keys
  {
    map k | k in body :: if k in fields then Text.Trim(body[k]) else body[k]
  }

  /** trimBodyValues(...fields): trims each listed field whose value is
      defined, in place, then calls next(). A field listed twice is trimmed
      twice, which changes nothing more. */
  method TrimBodyValues(fields: seq<string>, req: Request) returns (nextCalls: nat)
    modifies req
    ensures req.body == TrimmedValues(old(req.body), fields)
    ensures nextCalls == 1
  {
    ghost var orig := req.body;
    for i := 0 to |fields|
      invariant req.body == TrimmedValues(orig, fields[..i])
    {
      var p := fields[i];
      assert fields[..i + 1] == fields[..i] + [p];
      ghost var before := req.body;
      if p in req.body {
        req.body := req.body[p := Text.Trim(req.body[p])];
      }
      TrimmedValuesStep(orig, fields[..i], p, before, req.body);
    }
    assert fields[..|fields|] == fields;
    nextCalls := 1;
  }

  /** One more listed field: trimming an entry that is already trimmed
      leaves it as it is. */
  lemma TrimmedValuesStep(orig: Body, done: seq<string>, p: string, before: Body, after: Body)
    requires before == TrimmedValues(orig, done)
    requires after == if p in before then before[p := Text.Trim(before[p])] else before
    ensures after == TrimmedValues(orig, done + [p])
  {
    var a := TrimmedValues(orig, done + [p]);
    forall k | k in orig ensures a[k] == after[k] {
      if k == p {
        Text.TrimIdempotent(orig[p]);
      } else {
        assert (k in done + [p]) == (k in done);
      }
    }
    assert a.Keys == after.Keys;
  }

  /** Running the stage twice is running it once. */
  lemma TrimmedValuesIdempotent(body: Body, fields: seq<string>)
    ensures TrimmedValues(TrimmedValues(body, fields), fields) == TrimmedValues(body, fields)
  {
    var once := TrimmedValues(body, fields);
    forall k | k in body && k in fields ensures Text.Trim(once[k]) == once[k] {
      Text.TrimIdempotent(body[k]);
    }
  }

  /** { username: "  bob  " } with username listed becomes { username: "bob" }. */
  lemma TrimValuesExample()
    ensures TrimmedValues(map["username" := "  bob  "], ["username"]) == map["username" := "bob"]
  {
    var r := TrimmedValues(map["username" := "  bob  "], ["username"]);
    assert Text.Trim("  bob  ") == "bob" by {
      assert "  bob  " == "  " + "bob" + "  ";
      Text.TrimOfPadded("  ", "bob", "  ");
    }
    assert r.Keys == {"username"};
  }

  // ---------------------------------------------------------------------
  // Lookups by username and email

  /** checkUsernameExists: 404 when no user has the body's username. */
  function CheckUsernameExists(store: Store, body: Body): (r: Outcome)
    requires store.Valid()
    reads store
    ensures r.Next? <==> store.HoldsUsername(Field(body, "username"))
    ensures !r.Next? ==> r == Respond(404, UnknownUsername)
  {
    if store.FindByUsername(Field(body, "username")).None? then Respond(404, UnknownUsername) else Next
  }

  /** checkUsernameNotExists: 409 when some user has the body's username. */
  function CheckUsernameNotExists(store: Store, body: Body): (r: Outcome)
    requires store.Valid()
    reads store
    ensures r.Next? <==> !store.HoldsUsername(Field(body, "username"))
    ensures !r.Next? ==> r == Respond(409, UsernameTaken)
  {
    if store.FindByUsername(Field(body, "username")).Some? then Respond(409, UsernameTaken) else Next
  }

  /** For the same store and body exactly one of the two username stages
      calls next(), and neither ends without an answer. */
  lemma UsernameStagesComplementary(store: Store, body: Body)
    requires store.Valid()
    ensures CheckUsernameExists(store, body).Next? != CheckUsernameNotExists(store, body).Next?
    ensures !CheckUsernameExists(store, body).NoAnswer? && !CheckUsernameNotExists(store, body).NoAnswer?
  {
  }

  /** checkEmailNotExists: 409 when some user has the body's email. */
  function CheckEmailNotExists(store: Store, body: Body): (r: Outcome)
    requires store.Valid()
    reads store
    ensures r.Next? <==> !store.HoldsEmail(Field(body, "email"))
    ensures !r.Next? ==> r == Respond(409, EmailTaken)
  {
    if store.FindByEmail(Field(body, "email")).Some? then Respond(409, EmailTaken) else Next
  }

  // ---------------------------------------------------------------------
  // checkPasswordMatch

  /** checkPasswordMatch: looks the user up by username and compares the
      body's password with the stored hash: 401 on a mismatch, next() on a
      match. With no such user, reading its password throws inside the
      promise chain and the catch handler throws again on the error's shape;
      with no password to compare, the unchained comparison rejects. Either
      way nothing is sent. */
  function CheckPasswordMatch(store: Store, body: Body): (r: Outcome)
    requires store.Valid()
    reads store
    ensures r.Next? <==> exists id | id in store.users ::
      && Some(store.users[id].username) == Field(body, "username")
      && "password" in body && Credentials.Matches(body["password"], store.users[id].password)
    ensures r.Respond? <==> exists id | id in store.users ::
      && Some(store.users[id].username) == Field(body, "username")
      && "password" in body && !Credentials.Matches(body["password"], store.users[id].password)
    ensures r.Respond? ==> r == Respond(401, PasswordMismatch)
    ensures r.NoAnswer? <==> !store.HoldsUsername(Field(body, "username")) || "password" !in body
  {
    match store.FindByUsername(Field(body, "username"))
    case None => NoAnswer
    case Some(user) =>
      match Field(body, "password")
      case None => NoAnswer
      case Some(p) => if Credentials.Matches(p, user.password) then Next else Respond(401, PasswordMismatch)
  }

  // ---------------------------------------------------------------------
  // Route parameter and event center

  /** checkParamsValid: 404 unless parseInt(centerId, 10) is an integer. */
  function CheckParamsValid(centerId: string): (r: Outcome)
    ensures r.Next? <==> Text.ParseInt(centerId).Some?
    ensures !r.Next? ==> r == Respond(404, BadParam)
  {
    if Text.ParseInt(centerId).None? then Respond(404, BadParam) else Next
  }

  /** "12abc" passes: parseInt reads 12 and ignores the rest. */
  lemma LeadingDigitsPassParamCheck()
    ensures CheckParamsValid("12abc") == Next
  {
    assert "12abc" == "" + Text.Decimal(12) + "abc";
    Text.ParseIntReadsLeadingInteger("", 12, "abc");
  }

  /** "abc" and "" fail: there is no digit to read. */
  lemma NoDigitsFailParamCheck()
    ensures CheckParamsValid("abc") == Respond(404, BadParam)
    ensures CheckParamsValid("") == Respond(404, BadParam)
  {
    assert Text.LeadingSpace("abc") == 0;
    assert Text.DigitRun("abc") == 0;
  }

  /** checkCenterExists: next() when a center has the parameter's id, 404
      when none has, 400 when the lookup itself fails. */
  function CheckCenterExists(store: Store, centerId: string): (r: Outcome)
    reads store
    ensures r.Next? <==> exists id | id in store.centers :: Text.StrictInt(centerId) == Some(id)
    ensures r.Respond? && r.status == 404 <==> Text.StrictInt(centerId).Some? && Text.StrictInt(centerId).value !in store.centers
    ensures !r.Next? ==> r == Respond(404, UnknownCenter) || r == Respond(400, LookupError)
  {
    match store.FindCenter(centerId)
    case Found => Next
    case NotFound => Respond(404, UnknownCenter)
    case LookupFailed => Respond(400, LookupError)
  }

  /** A parameter that finds a center has already passed the shape check,
      whatever order the two stages run in. */
  lemma CenterFoundPassesParamCheck(store: Store, centerId: string)
    requires CheckCenterExists(store, centerId).Next?
    ensures CheckParamsValid(centerId).Next?
  {
    Text.StrictIntAgreesWithParseInt(centerId);
  }

  /** Every stored center is reached through its decimal id: both stages
      call next() for it. */
  lemma StoredCenterPassesBothStages(store: Store, id: int)
    requires id in store.centers
    ensures CheckParamsValid(Text.Decimal(id)) == Next
    ensures CheckCenterExists(store, Text.Decimal(id)) == Next
  {
    Text.ParseIntDecimal(id);
    Text.StrictIntDecimal(id);
  }
}
