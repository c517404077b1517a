/**
 * The account form rules of app/auth/validations.ts: username, password and
 * full-name fields, the object schemas that confirm a password, and the
 * open-redirect guard `parseRedirectUrl`.
 */
module AuthValidations {
  import opened Wrappers
  import opened Zod
  import JsString

  const FullNameSchema := StringSchema(3, Some(49),
    "Please ensure the full name is at least 3 characters long",
    "Please ensure the full name is less than 50 characters long", Keep)

  const UsernameSchema := Bounded(4, Some(50), LowerTrim)

  const PasswordSchema := Bounded(4, Some(100), TrimOnly)

  const PasswordMismatch := "Passwords don't match"

  const CreateAccountSchema := ObjectSchema([
      Field("fullName", FullNameSchema),
      Field("emailAddress", UsernameSchema),
      Field("password", PasswordSchema),
      Field("passwordConfirmation", PasswordSchema),
      Field("redirectTo", AnyString)],
    Some(Confirm("password", "passwordConfirmation", PasswordMismatch)))

  const CreateAdminSchema := ObjectSchema([
      Field("fullName", FullNameSchema),
      Field("emailAddress", UsernameSchema),
      Field("password", PasswordSchema),
      Field("passwordConfirmation", PasswordSchema)],
    Some(Confirm("password", "passwordConfirmation", PasswordMismatch)))

  const ResetPasswordSchema := ObjectSchema([
      Field("password", PasswordSchema),
      Field("passwordConfirmation", PasswordSchema),
      Field("token", AnyString)],
    Some(Confirm("password", "passwordConfirmation", PasswordMismatch)))

  const ChangePasswordSchema := ObjectSchema([
      Field("currentPassword", Bounded(1, None, Keep)),
      Field("newPassword", PasswordSchema)],
    None)

  lemma CreateAccountKeysDistinct()
    ensures DistinctKeys(CreateAccountSchema.fields)
  {
    var f := CreateAccountSchema.fields;
    assert f[0].key == "fullName" && f[1].key == "emailAddress" && f[2].key == "password";
    assert f[3].key == "passwordConfirmation" && f[4].key == "redirectTo";
    assert f[0].key[0] != f[2].key[0];
  }

  lemma CreateAdminKeysDistinct()
    ensures DistinctKeys(CreateAdminSchema.fields)
  {
  }

  lemma ResetPasswordKeysDistinct()
    ensures DistinctKeys(ResetPasswordSchema.fields)
  {
  }

  lemma ChangePasswordKeysDistinct()
    ensures DistinctKeys(ChangePasswordSchema.fields)
  {
  }

  /** The username transform `str.toLowerCase().trim()`. */
  function NormalizeUsername(s: string): (r: string)
    ensures |r| <= |s|
    ensures JsString.ToLower(r) == r
    ensures r == [] || (!JsString.IsSpace(r[0]) && !JsString.IsSpace(r[|r| - 1]))
  {
    var l := JsString.ToLower(s);
    JsString.TrimShape(l);
    JsString.ToLowerTrim(l);
    JsString.ToLowerIdempotent(s);
    ApplyTransform(LowerTrim, s)
  }

  /**
   * A username is accepted exactly when its RAW length is 4..50, and the
   * accepted value is the lower-cased, trimmed text.
   */
  lemma UsernameRule(s: string)
    ensures ParseString(UsernameSchema, Some(s)).Success? <==> 4 <= |s| <= 50
    ensures 4 <= |s| <= 50 ==> ParseString(UsernameSchema, Some(s)).value == NormalizeUsername(s)
    ensures |s| < 4 ==> ParseString(UsernameSchema, Some(s)) == Failure([TooShortMessage(4)])
    ensures |s| > 50 ==> ParseString(UsernameSchema, Some(s)) == Failure([TooLongMessage(50)])
  {
  }

  lemma LowerSample()
    ensures JsString.ToLower("  Ab") == "  ab"
  {
    var l := JsString.ToLower("  Ab");
    assert l[0] == ' ' && l[1] == ' ' && l[2] == 'a' && l[3] == 'b';
  }

  lemma TrimStartSample()
    ensures JsString.TrimStart("  ab") == "ab"
  {
    assert "  ab"[1..] == " ab";
    assert " ab"[1..] == "ab";
  }

  lemma TrimEndSample()
    ensures JsString.TrimEnd("ab") == "ab"
  {
  }

  /** The bounds are checked before trimming, so an accepted username can be shorter than four characters. */
  lemma UsernameMayShrink()
    ensures ParseString(UsernameSchema, Some("  Ab")) == Success("ab")
  {
    LowerSample();
    TrimStartSample();
    TrimEndSample();
    UsernameRule("  Ab");
  }

  /** Normalising a normalised username changes nothing. */
  lemma NormalizeUsernameIdempotent(s: string)
    ensures NormalizeUsername(NormalizeUsername(s)) == NormalizeUsername(s)
  {
    var l := JsString.ToLower(s);
    JsString.ToLowerTrim(l);
    JsString.ToLowerIdempotent(s);
    JsString.TrimIdempotent(l);
  }

  /** A password is accepted exactly when its raw length is 4..100; the accepted value is trimmed. */
  lemma PasswordRule(s: string)
    ensures ParseString(PasswordSchema, Some(s)).Success? <==> 4 <= |s| <= 100
    ensures 4 <= |s| <= 100 ==> ParseString(PasswordSchema, Some(s)).value == JsString.Trim(s)
  {
  }

  /** A full name is accepted exactly when its length is 3..49, with the source's own messages otherwise. */
  lemma FullNameRule(s: string)
    ensures ParseString(FullNameSchema, Some(s)) ==
      if |s| < 3 then Failure(["Please ensure the full name is at least 3 characters long"])
      else if |s| > 49 then Failure(["Please ensure the full name is less than 50 characters long"])
      else Success(s)
  {
  }

  /**
   * Once every field passes, the form is accepted exactly when the TRIMMED
   * password and confirmation agree, and a mismatch is a single message on
   * `passwordConfirmation` (none on `password`, no form-level message).
   */
  predicate PasswordsMustMatch(schema: ObjectSchema, form: Form)
    requires "password" in form && "passwordConfirmation" in form
  {
    var same := JsString.Trim(form["password"]) == JsString.Trim(form["passwordConfirmation"]);
    (Parse(schema, form).Success? <==> same) &&
    (!same ==> Parse(schema, form) == Failure(Flattened([], map["passwordConfirmation" := [PasswordMismatch]])))
  }

  lemma CreateAccountConfirmation(form: Form)
    requires AllFieldsPass(CreateAccountSchema.fields, form)
    ensures "password" in form && "passwordConfirmation" in form
    ensures PasswordsMustMatch(CreateAccountSchema, form)
  {
    var fields := CreateAccountSchema.fields;
    CreateAccountKeysDistinct();
    assert fields[2].key == "password" && fields[3].key == "passwordConfirmation";
    assert fields[2].schema.transform == TrimOnly && fields[3].schema.transform == TrimOnly;
    ConfirmOutcome(CreateAccountSchema, form, 2, 3);
  }

  lemma CreateAdminConfirmation(form: Form)
    requires AllFieldsPass(CreateAdminSchema.fields, form)
    ensures "password" in form && "passwordConfirmation" in form
    ensures PasswordsMustMatch(CreateAdminSchema, form)
  {
    var fields := CreateAdminSchema.fields;
    CreateAdminKeysDistinct();
    assert fields[2].key == "password" && fields[3].key == "passwordConfirmation";
    assert fields[2].schema.transform == TrimOnly && fields[3].schema.transform == TrimOnly;
    ConfirmOutcome(CreateAdminSchema, form, 2, 3);
  }

  lemma ResetPasswordConfirmation(form: Form)
    requires AllFieldsPass(ResetPasswordSchema.fields, form)
    ensures "password" in form && "passwordConfirmation" in form
    ensures PasswordsMustMatch(ResetPasswordSchema, form)
  {
    var fields := ResetPasswordSchema.fields;
    ResetPasswordKeysDistinct();
    assert fields[0].key == "password" && fields[1].key == "passwordConfirmation";
    assert fields[0].schema.transform == TrimOnly && fields[1].schema.transform == TrimOnly;
    ConfirmOutcome(ResetPasswordSchema, form, 0, 1);
  }

  /** ChangePasswordSchema accepts any non-empty current password and a new password of 4..100 characters. */
  lemma ChangePasswordRule(form: Form)
    ensures Parse(ChangePasswordSchema, form).Success? <==>
      "currentPassword" in form && |form["currentPassword"]| >= 1 &&
      "newPassword" in form && 4 <= |form["newPassword"]| <= 100
  {
    var fields := ChangePasswordSchema.fields;
    ChangePasswordKeysDistinct();
    ParseAccepts(ChangePasswordSchema, form);
    if !AllFieldsPass(fields, form) {
      var i :| 0 <= i < |fields| && !ParseString(fields[i].schema, Lookup(form, fields[i].key)).Success?;
      assert i == 0 || i == 1;
    } else {
      assert ParseString(fields[0].schema, Lookup(form, fields[0].key)).Success?;
      assert ParseString(fields[1].schema, Lookup(form, fields[1].key)).Success?;
    }
  }

  lemma ChangePasswordKeys()
    ensures KeysOf(ChangePasswordSchema.fields) == {"currentPassword", "newPassword"}
  {
    var fields := ChangePasswordSchema.fields;
    assert fields[0] in fields && fields[1] in fields;
  }

  /** An accepted change keeps the current password as typed and trims the new one; nothing else is kept. */
  lemma ChangePasswordValues(form: Form)
    requires Parse(ChangePasswordSchema, form).Success?
    ensures "currentPassword" in form && "newPassword" in form
    ensures var data := Parse(ChangePasswordSchema, form).value;
      data.Keys == {"currentPassword", "newPassword"} &&
      data["currentPassword"] == form["currentPassword"] &&
      data["newPassword"] == JsString.Trim(form["newPassword"])
  {
    var fields := ChangePasswordSchema.fields;
    ChangePasswordKeysDistinct();
    ChangePasswordKeys();
    ParseAccepts(ChangePasswordSchema, form);
    assert fields[0].key == "currentPassword" && fields[1].key == "newPassword";
    assert fields[0].schema.transform == Keep && fields[1].schema.transform == TrimOnly;
    assert ParseString(fields[0].schema, Lookup(form, fields[0].key)).Success?;
    assert ParseString(fields[1].schema, Lookup(form, fields[1].key)).Success?;
  }

  const DefaultRedirect := "/"

  /** The only paths a redirect may lead to. */
  const RedirectableUrls := ["/", "/employment-types", "/applications", "/lenders", "/apply"]

  /**
   * `parseRedirectUrl`: an absent or empty URL, one that does not start with
   * "/", or one that starts with "//" goes to "/"; otherwise the URL is kept
   * only if it is on the allow-list.
   */
  function ParseRedirectUrl(url: Option<string>): (r: string)
    ensures r in RedirectableUrls
    ensures r == DefaultRedirect || (url.Some? && r == url.value)
    ensures url.Some? && url.value in RedirectableUrls ==> r == url.value
  {
    if url.None? || url.value == [] then DefaultRedirect
    else if url.value[0] != '/' || (|url.value| >= 2 && url.value[1] == '/') then DefaultRedirect
    else if url.value in RedirectableUrls then url.value
    else DefaultRedirect
  }

  /** Protocol-relative, relative and empty URLs never get through. */
  lemma RedirectRejectsOffSite(url: string)
    requires url == [] || url[0] != '/' || (|url| >= 2 && url[..2] == "//")
    ensures ParseRedirectUrl(Some(url)) == DefaultRedirect
  {
    if |url| >= 2 && url[..2] == "//" {
      assert url[1] == url[..2][1];
    }
  }

  lemma RedirectIdempotent(url: Option<string>)
    ensures ParseRedirectUrl(Some(ParseRedirectUrl(url))) == ParseRedirectUrl(url)
  {
  }
}
