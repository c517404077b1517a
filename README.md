# BugTracker form rules, user store and routes in Dafny

This project models the server-side logic of the BugTracker Remix
application.

- **Validation rules** (`app/auth/validations.ts`, `app/core/validations.ts`):
  - the zod schemas for usernames, passwords and full names;
  - the "Passwords don't match" confirmation rule;
  - the digit-string coercions behind `PositiveIntSchema`;
  - the `parseRedirectUrl` allow-list guard;
  - the `badRequest` response.
- **`pad`** (`app/core/lib/strings.ts`).
- **The user store** (`app/users/user.server.ts`): a table of users keyed by username, with bcrypt hashes of trimmed passwords.
- **The routes** for sign-up (`join.tsx`), sign-in (`login.tsx`), product creation (`products/new.tsx`) and the product list (`products/index.tsx`): each loader and action is a decision over the session, the submitted form and the tables.

Modules:

| file | module | what it holds |
|---|---|---|
| `wrappers.dfy` | `Wrappers` | `Option` and `Result` |
| `js_string.dfy` | `JsString` | ASCII `toLowerCase`, `trim`, `includes`, `Array(n + 1).join`, decimal digits |
| `zod.dfy` | `Zod` | string schemas (bounds, transform), object schemas, an optional confirmation refine, `safeParse` + `flatten` |
| `auth_validations.dfy` | `AuthValidations` | the account schemas and `parseRedirectUrl` |
| `http.dfy` | `Http` | sessions, action data, responses and their status codes |
| `core_validations.dfy` | `CoreValidations` | `StringNumber`, `PositiveIntSchema`, `PerhapsZeroIntSchema`, `badRequest` |
| `strings.dfy` | `Strings` | `pad` |
| `bcrypt.dfy` | `Bcrypt` | an injective stand-in for `hash` / `compare` |
| `user_server.dfy` | `UserServer` | the user table: a class with a `map` field, and the read-only queries as functions |
| `product_store.dfy` | `ProductStore` | the product table: a class with a `seq` field and auto-incremented ids |
| `join_route.dfy`, `login_route.dfy`, `new_product_route.dfy`, `product_index_route.dfy` | `JoinRoute`, `LoginRoute`, `NewProductRoute`, `ProductIndexRoute` | the loaders and actions |

Modelling choices:

- **Forms.** A submitted form is a `map<string, string>`. A schema failure is reported as zod's flattened error: no form-level errors, and a map from field to messages. The messages use zod's default wording ("Required", "String must contain at least N character(s)").
- **Writing actions are methods.** These are `JoinRoute.JoinAction`, `NewProductRoute.NewProductAction` and the two table classes' methods. They change the table they are given. Reading routes are functions or methods without a `modifies` clause.
- **Responses.** What a route returns is a `Response`:
  - `Ok`: JSON, status 200;
  - `Redirect`;
  - `LoginRequired`: the redirect `requireUser` throws;
  - `StartSession`: `createUserSession` with the user id, `remember` and the requested redirect;
  - `Rejected`: `badRequest`, status 400.
- **Sessions.** The session is `Anonymous` or `SignedIn(userId)`.

## Model

| member | source | states |
|---|---|---|
| JsString.ToLowerTrim | app/auth/validations.ts:13 | lower-casing and trimming commute, so the username transform can be read either way round |
| JsString.TrimIdempotent | app/auth/validations.ts:19 | trimming a trimmed string changes nothing |
| JsString.TrimShape | app/auth/validations.ts:19 | a trimmed string is no longer than the input and neither starts nor ends with white space |
| JsString.Repeat | app/core/lib/strings.ts:7 | `Array(n + 1).join(fill)` has n·\|fill\| characters, the k-th being fill[k mod \|fill\|] |
| JsString.DecimalRoundTrip | app/routes/products/new.tsx:67 | an id written in decimal reads back as the same number |
| Zod.ParseString | app/auth/validations.ts:9-19 | a string field succeeds iff present and its raw length is within the bounds, giving the transformed text; absent gives "Required", too short or too long gives the matching message |
| Zod.Parse | app/routes/join.tsx:65-67 | `safeParseAsync` then `flatten`: a failure always names at least one field and has no form-level error, so the joined form error is ""; an accepted form keeps only the schema's keys |
| Zod.ParseAccepts | app/routes/join.tsx:65-70 | an object parse succeeds iff every field passes and the confirmation (if any) holds; the result has exactly the schema's keys, each holding its field's transformed input |
| Zod.FieldFailure | app/routes/join.tsx:65-68 | when some field fails: no form-level errors; a field has messages iff it failed, and they are its own messages |
| Zod.ConfirmOutcome | app/auth/validations.ts:29-32 | once all fields pass, the parse succeeds iff the two transformed values agree; otherwise the only error is the refine message on the second field |
| AuthValidations.UsernameRule | app/auth/validations.ts:9-13 | a username is accepted iff its raw length is 4..50; the value is lower-cased then trimmed; too short or too long gives zod's message |
| AuthValidations.UsernameMayShrink | app/auth/validations.ts:9-13 | the length is checked before trimming: "  Ab" is accepted as "ab" |
| AuthValidations.NormalizeUsername | app/auth/validations.ts:13 | the normalised username is no longer than the input, already lower-case, and neither starts nor ends with white space |
| AuthValidations.NormalizeUsernameIdempotent | app/auth/validations.ts:13 | normalising a normalised username returns it unchanged |
| AuthValidations.PasswordRule | app/auth/validations.ts:15-19 | a password is accepted iff its raw length is 4..100; the value is trimmed |
| AuthValidations.FullNameRule | app/auth/validations.ts:4-7 | a full name is accepted unchanged iff its length is 3..49, with the source's own message for each bound |
| AuthValidations.CreateAccountConfirmation | app/auth/validations.ts:21-32 | once all fields pass, accepted iff the trimmed password and confirmation agree; a mismatch is one message on `passwordConfirmation` only |
| AuthValidations.CreateAdminConfirmation | app/auth/validations.ts:34-44 | the same confirmation rule for the admin form |
| AuthValidations.ResetPasswordConfirmation | app/auth/validations.ts:59-68 | the same confirmation rule for the reset form |
| AuthValidations.ChangePasswordRule | app/auth/validations.ts:70-73 | accepted iff the current password is non-empty and the new one has 4..100 characters |
| AuthValidations.ChangePasswordValues | app/auth/validations.ts:70-73 | an accepted change keeps exactly the two keys: the current password as typed and the new one trimmed |
| AuthValidations.ParseRedirectUrl | app/auth/validations.ts:75-94 | the result is always on the allow-list; it is "/" or the input; an allow-listed input is kept |
| AuthValidations.RedirectRejectsOffSite | app/auth/validations.ts:77-82 | empty, relative and protocol-relative ("//") URLs go to "/" |
| AuthValidations.RedirectIdempotent | app/auth/validations.ts:75-94 | applying the guard to its own output changes nothing |
| CoreValidations.StringNumber | app/core/validations.ts:6 | non-strings fail; a string passes iff it contains a digit anywhere (the regex is unanchored); an all-digit string gives its decimal value, any other passing string the uninterpreted `Unknown` |
| CoreValidations.StringNumberUnanchored | app/core/validations.ts:6 | the digit test is unanchored: "id-7" passes it |
| CoreValidations.PositiveInt | app/core/validations.ts:21-26 | only values of at least 1 are accepted; absent values and non-integer numbers are refused; a number is always decided; the verdict is undetermined exactly for strings with a digit that are not all digits |
| CoreValidations.PerhapsZeroInt | app/core/validations.ts:14-19 | although `.min(0)` admits 0, the refine means only values of at least 1 are accepted and the number 0 is refused; absent values and non-integer numbers are refused |
| CoreValidations.PositiveIntOnNumbers | app/core/validations.ts:21-24 | an integer number is accepted, unchanged, iff it is at least 1 |
| CoreValidations.PositiveIntOnDigits | app/core/validations.ts:21-26 | an all-digit string is accepted iff its value is positive, giving that value |
| CoreValidations.ZeroStringsRefused | app/core/validations.ts:21-26 | "0" and "000" are refused |
| CoreValidations.PerhapsZeroIsPositive | app/core/validations.ts:14-19 | PerhapsZeroIntSchema refuses 0 and decides every input exactly as PositiveIntSchema does |
| CoreValidations.PositiveIntReadsIds | app/core/validations.ts:21-26 | the decimal rendering of every id from 1 up is accepted as that id |
| CoreValidations.BadRequest | app/core/validations.ts:48-50 | the data, unchanged, with status 400 |
| Strings.Pad | app/core/lib/strings.ts:1-8 | the result is at least `width` long and at least as long as the subject, ends with the subject, and starts with the pad character (or "0") whenever padding was needed |
| Strings.PadEmptyFill | app/core/lib/strings.ts:2 | an empty pad character pads with "0" |
| Strings.PadWideEnough | app/core/lib/strings.ts:4-6 | a subject at least `width` long is returned unchanged |
| Strings.PadShape | app/core/lib/strings.ts:4-7 | exactly max(0, width − length) copies of the pad text, then the subject: the result ends with the subject |
| Strings.PadLength | app/core/lib/strings.ts:4-7 | with a one-character pad the result has max(width, length) characters, all pad characters before the subject |
| Bcrypt.CompareHash | app/users/user.server.ts:27 | a candidate matches the hash of a password iff it is that password |
| UserServer.GetUserByUsername | app/users/user.server.ts:14-16 | finds the record whose username is exactly the argument, or reports that none has it |
| UserServer.GetUserById | app/users/user.server.ts:10-12 | finds a record iff one has that id, and it is that record |
| UserServer.VerifyLogin | app/users/user.server.ts:36-55 | nothing when the username is unknown, the stored hash is empty or the password does not match; when the record exists, its hash is non-empty and the password matches, exactly that record without the hash |
| UserServer.CreatedUserVerifies | app/users/user.server.ts:22-30 | after a create, logging in under the normalised name succeeds iff the attempt is the trimmed password, giving the new record |
| UserServer.UserTable.CreateUser | app/users/user.server.ts:22-30 | a taken normalised username fails and changes nothing; otherwise exactly one record is added: the normalised name, the hash of the trimmed password, a fresh id |
| UserServer.UserTable.DeleteUserByUsername | app/users/user.server.ts:32-34 | removes exactly the record with that username; a missing one fails and changes nothing |
| ProductStore.FindProduct | app/routes/products/new.tsx:67 | the `prisma.product.findUnique({ where: { id } })` of the product page that this redirect leads to (`app/routes/products/$id/index.tsx`, lines 52-55): finds the row with that id, or reports that none has it |
| ProductStore.ProductTable.Create | app/routes/products/new.tsx:63-65 | appends exactly one row with the given name and description under an id no earlier row has |
| ProductStore.CreateThenFind | app/routes/products/new.tsx:63-67 | looking up the new id after a create, as the product page does (`app/routes/products/$id/index.tsx`, lines 52-55), finds exactly the new row |
| JoinRoute.JoinLoader | app/routes/join.tsx:34-40 | a signed-in visitor is redirected to "/issues", anyone else gets an empty payload |
| JoinRoute.JoinDecision | app/routes/join.tsx:61-80 | a user is to be created exactly when the schema accepts the form and no record is stored under the normalised username; every refusal echoes the form and names at least one field |
| JoinRoute.JoinRefusesInvalid | app/routes/join.tsx:65-69 | a refused form gives the fields, the field errors and an empty form error |
| JoinRoute.JoinMismatch | app/routes/join.tsx:48-51 | a password mismatch is one message on `passwordConfirmation` |
| JoinRoute.JoinRefusesTaken | app/routes/join.tsx:70-79 | a normalised username already in the table gives a single "Username already taken" error keyed `emailAddress` and no form error |
| JoinRoute.JoinTakenIgnoresCase | app/routes/join.tsx:43 | "JDoe" is refused when "jdoe" exists |
| JoinRoute.JoinCreates | app/routes/join.tsx:70-81 | an accepted, untaken form creates the normalised name with the trimmed password, both already in the form `createUser` stores |
| JoinRoute.JoinAction | app/routes/join.tsx:61-88 | a refusal is a 400 that leaves the table unchanged; otherwise exactly one record is added under a fresh id and a session with `remember = false` is started for it |
| LoginRoute.LoginLoader | app/routes/login.tsx:30-40 | a signed-in visitor is redirected to "/issues"; anyone else gets the `message` parameter, or "" when it is absent |
| LoginRoute.LoginSchemaRule | app/routes/login.tsx:42-46 | accepted iff the username has 4..50 characters, the password at least one, and a redirect is present |
| LoginRoute.LoginSchemaValues | app/routes/login.tsx:42-46 | the username is normalised; the password is kept as typed, not trimmed |
| LoginRoute.LoginAction | app/routes/login.tsx:56-78 | the action either rejects, echoing the form, or starts a remembered session; a session only follows an accepted form, goes to the requested redirect and belongs to the record stored under the normalised username |
| LoginRoute.LoginRejectsInvalid | app/routes/login.tsx:60-64 | a refused form gives the fields, the field errors and an empty form error |
| LoginRoute.LoginChecksCredentials | app/routes/login.tsx:65-77 | success iff the record under the normalised name has a non-empty hash matching the untrimmed password, with `remember = true`; otherwise "Incorrect credentials" with no field errors |
| LoginRoute.LoginNeedsNormalisedKey | app/routes/login.tsx:65-67 | a record stored under a name that is not lower-case and trimmed can never sign in |
| LoginRoute.JoinThenLogin | app/routes/login.tsx:44-77 | after sign-up, signing in under the same name in any case succeeds iff the password equals the trimmed sign-up password; a padded password does not work as typed |
| NewProductRoute.NewProductLoader | app/routes/products/new.tsx:32-35 | an anonymous visitor must log in; a signed-in one gets the page |
| NewProductRoute.ProductSchemaRule | app/routes/products/new.tsx:37-40 | accepted iff the name has 1..255 characters and the description 1..800; both are kept exactly as submitted |
| NewProductRoute.BlankProductAccepted | app/routes/products/new.tsx:37-40 | a name and description made only of spaces pass |
| NewProductRoute.NewProductAction | app/routes/products/new.tsx:50-68 | anonymous: log in, table unchanged; refused form: 400 with the field errors, table unchanged; otherwise exactly one product with the submitted values and a redirect to "/products/" + its id |
| NewProductRoute.RedirectFindsNewProduct | app/routes/products/new.tsx:63-67 | the id in the redirect path reads back through `PositiveIntSchema` and finds exactly the created product, as the product page's loader does (`app/routes/products/$id/index.tsx`, lines 37-55) |
| ProductIndexRoute.SearchTerms | app/routes/products/index.tsx:25 | an absent or empty parameter means no search term |
| ProductIndexRoute.SearchFilter | app/routes/products/index.tsx:36-43 | the rows whose name or description contains the term, each as often as it is stored, and no others |
| ProductIndexRoute.Found | app/routes/products/index.tsx:35-44 | without a term every row; with one exactly the matching rows; never more than the table holds |
| ProductIndexRoute.SortNewestFirst | app/routes/products/index.tsx:49 | sorts in place into descending id order, a permutation of the input |
| ProductIndexRoute.SubmultisetKeepsDistinctIds | app/routes/products/index.tsx:33-49 | a list drawn from a table with distinct ids has distinct ids |
| ProductIndexRoute.ProductsLoader | app/routes/products/index.tsx:23-52 | anonymous: log in; otherwise exactly the matching products, each once, in strictly descending id order, with the parsed input echoed and the table only read |
| ProductIndexRoute.SeedSearch | app/routes/products/index.tsx:36-43 | searching the seeded products for "PDF" keeps "Merge PDF" and drops "Remove Background", under either case policy |

## Left out

- **Unicode.** `toLowerCase` and `trim` are modelled on ASCII: letters A–Z, and the six ASCII white-space characters.
- Zod.ParseString: string lengths are counted in Unicode code points (a Dafny `char`), whereas JavaScript's `.length` counts UTF-16 code units. A character outside the Basic Multilingual Plane counts once here and twice in the source, so a bound can decide differently on such text: usernames 4..50, passwords 4..100, full names 3..49, and the upper bounds of product names (255) and descriptions (800). A minimum of 1 is unaffected, since a string is non-empty in code points exactly when it is non-empty in UTF-16 units.
- CoreValidations.StringNumber: `Number` of an all-digit string is the exact integer here. In JavaScript it is a double, so a value above 2^53 is rounded ("9007199254740993" reads as 9007199254740992).
- **Zod's "dirty" refine.** zod also runs an object refine when a field failed only a length check. The model runs the confirmation only when every field passes, so a form that fails a length check and also mismatches reports the length errors only.
- **Flattened form errors.** For these schemas `formErrors` is always empty, so a schema failure carries the form error "" (`formErrors.join(", ")` of an empty list).
- **`Number()` on other strings.** `Number` is modelled on all-digit strings only. Strings that pass the unanchored digit test without being all digits ("1e3", "0x10", "id-7") coerce to an uninterpreted value (`Unknown`, giving `Undetermined`).
- **Floating point.** A number with a fractional part is one value, `NonInteger`.
- **Other schemas.** `PositiveDecimalSchema`, `CleanPositiveIntSchema` and `DateSchema` involve floats and `Date` parsing. `EditAccountSchema`, `EditAdminAccountSchema` and `ForgotPasswordSchema` are outside the core.
- **bcrypt** is an injective stand-in: no salt, no cost factor, no 72-byte truncation.
- Strings.Pad: `width` is an integer, and a fractional `width` and the `subject + ''` coercion of non-strings are not modelled. The subject's length is counted in code points where JavaScript counts UTF-16 units, so `pad("😀", 2, "0")` returns the subject unchanged in the source (length 2) but gains a "0" here. The `RangeError` that `new Array(width - subject.length + 1)` throws past 2^32 − 1 elements, and the one `join` throws past the engine's maximum string length, are not modelled: `Pad` returns a string for every width.
- **Prisma** becomes in-memory tables:
  - users are keyed by their unique username;
  - products are a sequence with auto-incremented ids;
  - timestamps and other columns are not kept.
- **The database's case policy for `contains`** depends on the backing store, so it is a parameter (`CasePolicy`).
- **Sessions and cookies.** `getUserId` / `requireUser` become the `Session` input. `createUserSession` becomes the `StartSession` response.
- **`safeRedirect`** is not interpreted: the requested redirect is carried as given.
- **Concurrency.** The `Promise.all` in the product list runs its two calls one after the other.
- **The index loader's "Invalid input" 400** is not modelled: its schema accepts every input, so that branch cannot be reached.
- **Rendering.** React components, meta functions and catch/error boundaries are UI.
- **`prisma/seed.ts`** is not part of this model. Two of its products appear as sample data in `ProductIndexRoute.SeedSearch`.
