/**
 * The sign-up route of app/routes/join.tsx: its loader, its form schema and
 * its action. The action validates the form, refuses a username that is
 * already taken, and otherwise creates exactly one user and starts a
 * session that is not remembered.
 */
module JoinRoute {
  import opened Wrappers
  import opened Zod
  import opened Http
  import JsString
  import Bcrypt
  import AuthValidations
  import CoreValidations
  import UserServer

  const JoinSchema := ObjectSchema([
      Field("username", AuthValidations.UsernameSchema),
      Field("password", AuthValidations.PasswordSchema),
      Field("passwordConfirmation", AuthValidations.PasswordSchema),
      Field("redirectTo", AnyString)],
    Some(Confirm("password", "passwordConfirmation", AuthValidations.PasswordMismatch)))

  const UsernameTaken := "Username already taken"

  /** The loader: a signed-in visitor is sent to "/issues", anyone else gets an empty payload. */
  function JoinLoader(session: Session): (r: Response<()>)
    ensures r.Redirect? <==> session.SignedIn?
    ensures r.Redirect? ==> r.location == "/issues"
    ensures session.Anonymous? ==> r == Ok(())
  {
    if session.SignedIn? then Redirect("/issues") else Ok(())
  }

  lemma JoinSchemaKeysDistinct()
    ensures DistinctKeys(JoinSchema.fields)
  {
  }

  /** What an accepted sign-up form yields: the normalised username, the trimmed password, the raw redirect. */
  lemma JoinSchemaValues(form: Form)
    requires Parse(JoinSchema, form).Success?
    ensures "username" in form && "password" in form && "passwordConfirmation" in form && "redirectTo" in form
    ensures var data := Parse(JoinSchema, form).value;
      "username" in data && "password" in data && "redirectTo" in data &&
      data["username"] == AuthValidations.NormalizeUsername(form["username"]) &&
      data["password"] == JsString.Trim(form["password"]) &&
      data["redirectTo"] == form["redirectTo"]
  {
    var fields := JoinSchema.fields;
    JoinSchemaKeysDistinct();
    assert fields[0].key == "username" && fields[0].schema.transform == LowerTrim;
    assert fields[1].key == "password" && fields[1].schema.transform == TrimOnly;
    assert fields[2].key == "passwordConfirmation";
    assert fields[3].key == "redirectTo" && fields[3].schema.transform == Keep;
    FieldValue(JoinSchema, form, 0);
    FieldValue(JoinSchema, form, 1);
    FieldValue(JoinSchema, form, 2);
    FieldValue(JoinSchema, form, 3);
  }

  /** What the action decides before touching the table. */
  datatype JoinPlan =
    | Refuse(data: ActionData)
    | Create(username: string, password: string, redirectTo: string)

  /**
   * A user is created exactly when the schema accepts the form and nobody is
   * stored under the normalised username; every refusal echoes the form and
   * names at least one field.
   */
  function JoinDecision(users: UserServer.Users, form: Form): (r: JoinPlan)
    requires UserServer.WellFormed(users)
    ensures r.Create? <==>
      Parse(JoinSchema, form).Success? && "username" in form && AuthValidations.NormalizeUsername(form["username"]) !in users
    ensures r.Refuse? ==> r.data.fields == form && r.data.fieldErrors.Some? && r.data.fieldErrors.value != map[]
  {
    match Parse(JoinSchema, form)
    case Failure(e) =>
      assert e.fieldErrors != map[];
      Refuse(ActionData(form, Some(e.fieldErrors), Some(JsString.JoinWith(e.formErrors, ", "))))
    case Success(data) =>
      JoinSchemaValues(form);
      var username := data["username"];
      assert username == AuthValidations.NormalizeUsername(form["username"]);
      if UserServer.GetUserByUsername(users, username).Some? then
        var taken := map["emailAddress" := [UsernameTaken]];
        assert "emailAddress" in taken;
        Refuse(ActionData(form, Some(taken), None))
      else
        Create(username, data["password"], data["redirectTo"])
  }

  /** A form the schema refuses gives a 400 echoing the fields, with the field errors and an empty form error. */
  lemma JoinRefusesInvalid(users: UserServer.Users, form: Form)
    requires UserServer.WellFormed(users) && Parse(JoinSchema, form).Failure?
    ensures JoinDecision(users, form) ==
      Refuse(ActionData(form, Some(Parse(JoinSchema, form).error.fieldErrors), Some("")))
    ensures Parse(JoinSchema, form).error.fieldErrors != map[]
  {
  }

  lemma JoinSchemaMismatch(form: Form)
    requires AllFieldsPass(JoinSchema.fields, form)
    requires "password" in form && "passwordConfirmation" in form
    requires JsString.Trim(form["password"]) != JsString.Trim(form["passwordConfirmation"])
    ensures Parse(JoinSchema, form) ==
      Failure(Flattened([], map["passwordConfirmation" := [AuthValidations.PasswordMismatch]]))
  {
    var fields := JoinSchema.fields;
    JoinSchemaKeysDistinct();
    assert fields[1].key == "password" && fields[2].key == "passwordConfirmation";
    assert fields[1].schema.transform == TrimOnly && fields[2].schema.transform == TrimOnly;
    ConfirmOutcome(JoinSchema, form, 1, 2);
  }

  /**
   * When every field passes but the trimmed password and confirmation
   * differ, the only field error is "Passwords don't match" on `passwordConfirmation`.
   */
  lemma JoinMismatch(users: UserServer.Users, form: Form)
    requires UserServer.WellFormed(users) && AllFieldsPass(JoinSchema.fields, form)
    requires "password" in form && "passwordConfirmation" in form
    requires JsString.Trim(form["password"]) != JsString.Trim(form["passwordConfirmation"])
    ensures JoinDecision(users, form) ==
      Refuse(ActionData(form, Some(map["passwordConfirmation" := [AuthValidations.PasswordMismatch]]), Some("")))
  {
    JoinSchemaMismatch(form);
  }

  /**
   * The duplicate check looks up the NORMALISED username: a taken name gives
   * a 400 whose only field error is keyed `emailAddress`, and no form error.
   */
  lemma JoinRefusesTaken(users: UserServer.Users, form: Form)
    requires UserServer.WellFormed(users) && Parse(JoinSchema, form).Success?
    requires "username" in form && AuthValidations.NormalizeUsername(form["username"]) in users
    ensures JoinDecision(users, form) ==
      Refuse(ActionData(form, Some(map["emailAddress" := [UsernameTaken]]), None))
  {
    JoinSchemaValues(form);
  }

  lemma NormalizeJDoe()
    ensures AuthValidations.NormalizeUsername("JDoe") == "jdoe"
  {
    assert JsString.ToLower("JDoe") == "jdoe";
    assert JsString.TrimStart("jdoe") == "jdoe";
    assert JsString.TrimEnd("jdoe") == "jdoe";
  }

  /** "JDoe" is refused when "jdoe" exists: the duplicate check ignores case. */
  lemma JoinTakenIgnoresCase(users: UserServer.Users, form: Form)
    requires UserServer.WellFormed(users) && "jdoe" in users
    requires Parse(JoinSchema, form).Success? && "username" in form && form["username"] == "JDoe"
    ensures JoinDecision(users, form) ==
      Refuse(ActionData(form, Some(map["emailAddress" := [UsernameTaken]]), None))
  {
    NormalizeJDoe();
    JoinRefusesTaken(users, form);
  }

  /**
   * An accepted, untaken form creates the normalised username with the
   * trimmed password. Both are already normal, so `createUser`'s own
   * lower-casing and trimming store exactly them.
   */
  lemma JoinCreates(users: UserServer.Users, form: Form)
    requires UserServer.WellFormed(users) && JoinDecision(users, form).Create?
    ensures "username" in form && "password" in form && "redirectTo" in form
    ensures var plan := JoinDecision(users, form);
      plan.username == AuthValidations.NormalizeUsername(form["username"]) &&
      plan.password == JsString.Trim(form["password"]) &&
      plan.redirectTo == form["redirectTo"] &&
      plan.username !in users &&
      AuthValidations.NormalizeUsername(plan.username) == plan.username &&
      JsString.Trim(plan.password) == plan.password
  {
    JoinSchemaValues(form);
    AuthValidations.NormalizeUsernameIdempotent(form["username"]);
    JsString.TrimIdempotent(form["password"]);
  }

  /**
   * The action. A refusal is a 400 and leaves the table as it was; otherwise
   * exactly one record is added, under a fresh id, and a session that is not
   * remembered is started for it.
   */
  method JoinAction(t: UserServer.UserTable, form: Form) returns (r: Response<()>)
    requires t.Valid()
    modifies t
    ensures t.Valid()
    ensures var plan := JoinDecision(old(t.users), form);
      match plan
      case Refuse(data) =>
        r == CoreValidations.BadRequest(data) && t.users == old(t.users) && t.nextId == old(t.nextId)
      case Create(username, password, redirectTo) =>
        r == StartSession(old(t.nextId), false, redirectTo) &&
        t.users == old(t.users)[username := UserServer.User(old(t.nextId), username, Bcrypt.Hash(password))] &&
        t.nextId == old(t.nextId) + 1
  {
    var plan := JoinDecision(t.users, form);
    match plan
    case Refuse(data) =>
      r := CoreValidations.BadRequest(data);
    case Create(username, password, redirectTo) =>
      JoinCreates(t.users, form);
      var user := t.CreateUser(username, password);
      r := StartSession(user.value.id, false, redirectTo);
  }
}
