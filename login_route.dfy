/**
 * The sign-in route of app/routes/login.tsx: its loader, its form schema and
 * its action. The action validates the form, looks the NORMALISED username
 * up, compares the UNTRIMMED password with the stored hash, and starts a
 * remembered session on success.
 */
module LoginRoute {
  import opened Wrappers
  import opened Zod
  import opened Http
  import JsString
  import Bcrypt
  import AuthValidations
  import CoreValidations
  import UserServer
  import JoinRoute

  const LoginSchema := ObjectSchema([
      Field("username", AuthValidations.UsernameSchema),
      Field("password", Bounded(1, None, Keep)),
      Field("redirectTo", AnyString)],
    None)

  const IncorrectCredentials := "Incorrect credentials"

  /**
   * The loader: a signed-in visitor is sent to "/issues"; anyone else gets
   * the `message` query parameter, or "" when it is absent.
   */
  function LoginLoader(session: Session, message: Option<string>): (r: Response<string>)
    ensures r.Redirect? <==> session.SignedIn?
    ensures r.Redirect? ==> r.location == "/issues"
    ensures session.Anonymous? && message.Some? ==> r == Ok(message.value)
    ensures session.Anonymous? && message.None? ==> r == Ok("")
  {
    if session.SignedIn? then Redirect("/issues")
    else Ok(if message.None? then "" else message.value)
  }

  lemma LoginSchemaKeysDistinct()
    ensures DistinctKeys(LoginSchema.fields)
  {
  }

  /**
   * The sign-in form is accepted exactly when the username has 4 to 50
   * characters before normalisation, the password is not empty and a
   * redirect is present.
   */
  lemma LoginSchemaRule(form: Form)
    ensures Parse(LoginSchema, form).Success? <==>
      "username" in form && 4 <= |form["username"]| <= 50 &&
      "password" in form && 1 <= |form["password"]| &&
      "redirectTo" in form
  {
    var fields := LoginSchema.fields;
    LoginSchemaKeysDistinct();
    assert fields[0] == Field("username", AuthValidations.UsernameSchema);
    assert fields[1] == Field("password", Bounded(1, None, Keep));
    assert fields[2] == Field("redirectTo", AnyString);
    ParseAccepts(LoginSchema, form);
    if "username" in form {
      AuthValidations.UsernameRule(form["username"]);
    }
    if !AllFieldsPass(fields, form) {
      var i :| 0 <= i < |fields| && !ParseString(fields[i].schema, Lookup(form, fields[i].key)).Success?;
      assert i == 0 || i == 1 || i == 2;
    } else {
      assert ParseString(fields[0].schema, Lookup(form, fields[0].key)).Success?;
      assert ParseString(fields[1].schema, Lookup(form, fields[1].key)).Success?;
      assert ParseString(fields[2].schema, Lookup(form, fields[2].key)).Success?;
    }
  }

  /** An accepted sign-in form yields the normalised username, the password exactly as typed and the raw redirect. */
  lemma LoginSchemaValues(form: Form)
    requires Parse(LoginSchema, form).Success?
    ensures "username" in form && "password" in form && "redirectTo" in form
    ensures var data := Parse(LoginSchema, form).value;
      "username" in data && "password" in data && "redirectTo" in data &&
      data["username"] == AuthValidations.NormalizeUsername(form["username"]) &&
      data["password"] == form["password"] &&
      data["redirectTo"] == form["redirectTo"]
  {
    var fields := LoginSchema.fields;
    LoginSchemaKeysDistinct();
    ParseAccepts(LoginSchema, form);
    assert ParseString(fields[0].schema, Lookup(form, fields[0].key)).Success?;
    assert ParseString(fields[1].schema, Lookup(form, fields[1].key)).Success?;
    assert ParseString(fields[2].schema, Lookup(form, fields[2].key)).Success?;
  }

  /** The action, which reads the table and changes nothing. */
  function LoginAction(users: UserServer.Users, form: Form): (r: Response<()>)
    requires UserServer.WellFormed(users)
    ensures r.Rejected? || r.StartSession?
    ensures r.Rejected? ==> r.data.fields == form
    ensures r.StartSession? ==>
      Parse(LoginSchema, form).Success? && "username" in form && "redirectTo" in form &&
      r.remember && r.redirectTo == form["redirectTo"] &&
      var key := AuthValidations.NormalizeUsername(form["username"]);
      key in users && users[key].id == r.userId
  {
    match Parse(LoginSchema, form)
    case Failure(e) =>
      CoreValidations.BadRequest(ActionData(form, Some(e.fieldErrors), Some(JsString.JoinWith(e.formErrors, ", "))))
    case Success(data) =>
      LoginSchemaValues(form);
      match UserServer.VerifyLogin(users, data["username"], data["password"])
      case None => CoreValidations.BadRequest(ActionData(form, None, Some(IncorrectCredentials)))
      case Some(user) => StartSession(user.id, true, data["redirectTo"])
  }

  /** A refused form is a 400 echoing the fields, with the field errors and an empty form error. */
  lemma LoginRejectsInvalid(users: UserServer.Users, form: Form)
    requires UserServer.WellFormed(users) && Parse(LoginSchema, form).Failure?
    ensures LoginAction(users, form) ==
      Rejected(ActionData(form, Some(Parse(LoginSchema, form).error.fieldErrors), Some("")))
  {
  }

  /**
   * An accepted form signs in exactly when a record is stored under the
   * normalised username, its hash is not empty and it matches the password
   * as typed: the session is remembered and belongs to that record.
   * Otherwise a 400 with "Incorrect credentials" and no field errors.
   */
  lemma LoginChecksCredentials(users: UserServer.Users, form: Form)
    requires UserServer.WellFormed(users) && Parse(LoginSchema, form).Success?
    ensures "username" in form && "password" in form && "redirectTo" in form
    ensures var key := AuthValidations.NormalizeUsername(form["username"]);
      var r := LoginAction(users, form);
      if key in users && users[key].password != "" && Bcrypt.Compare(form["password"], users[key].password) then
        r == StartSession(users[key].id, true, form["redirectTo"])
      else
        r == Rejected(ActionData(form, None, Some(IncorrectCredentials)))
  {
    LoginSchemaValues(form);
    var data := Parse(LoginSchema, form).value;
    var key := AuthValidations.NormalizeUsername(form["username"]);
    var verdict := UserServer.VerifyLogin(users, key, form["password"]);
    assert LoginAction(users, form) ==
      match verdict
      case None => CoreValidations.BadRequest(ActionData(form, None, Some(IncorrectCredentials)))
      case Some(user) => StartSession(user.id, true, form["redirectTo"]);
    if key in users {
      assert UserServer.GetUserByUsername(users, key) == Some(users[key]);
    }
  }

  /**
   * Only records stored under a normalised username can ever sign in: a
   * record whose key has upper-case letters or surrounding spaces (as a
   * seeded one may) is never the one a session is started for.
   */
  lemma LoginNeedsNormalisedKey(users: UserServer.Users, form: Form, stored: string)
    requires UserServer.WellFormed(users)
    requires stored in users && AuthValidations.NormalizeUsername(stored) != stored
    ensures LoginAction(users, form).StartSession? ==> LoginAction(users, form).userId != users[stored].id
  {
    if LoginAction(users, form).StartSession? {
      LoginSchemaValues(form);
      var key := AuthValidations.NormalizeUsername(form["username"]);
      AuthValidations.NormalizeUsernameIdempotent(form["username"]);
      assert key != stored;
    }
  }

  /**
   * Sign-up followed by sign-in: after the join action created its record,
   * a sign-in form naming the same user (in any letter case) succeeds
   * exactly when its password equals the TRIMMED sign-up password, so a
   * password typed with surrounding spaces at sign-up does not work as typed.
   */
  lemma JoinThenLogin(users: UserServer.Users, joinForm: Form, loginForm: Form, id: nat)
    requires UserServer.WellFormed(users) && JoinRoute.JoinDecision(users, joinForm).Create?
    requires forall k :: k in users ==> users[k].id != id
    requires Parse(LoginSchema, loginForm).Success?
    requires "username" in loginForm && "username" in joinForm
    requires AuthValidations.NormalizeUsername(loginForm["username"]) == AuthValidations.NormalizeUsername(joinForm["username"])
    ensures "password" in loginForm && "password" in joinForm && "redirectTo" in loginForm
    ensures var plan := JoinRoute.JoinDecision(users, joinForm);
      var after := users[plan.username := UserServer.User(id, plan.username, Bcrypt.Hash(plan.password))];
      UserServer.WellFormed(after) &&
      LoginAction(after, loginForm) ==
        if loginForm["password"] == JsString.Trim(joinForm["password"])
        then StartSession(id, true, loginForm["redirectTo"])
        else Rejected(ActionData(loginForm, None, Some(IncorrectCredentials)))
  {
    var plan := JoinRoute.JoinDecision(users, joinForm);
    JoinRoute.JoinCreates(users, joinForm);
    var u := UserServer.User(id, plan.username, Bcrypt.Hash(plan.password));
    var after := users[plan.username := u];
    UserServer.InsertKeepsWellFormed(users, plan.username, u);
    LoginChecksCredentials(after, loginForm);
    Bcrypt.CompareHash(plan.password, loginForm["password"]);
  }
}
