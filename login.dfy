/**
  The login route's action (app/routes/login.tsx): it reads the form, checks
  field types and lengths, then logs in, registers, or reports an error. Every
  path ends in a 400 payload `{ fieldErrors, fields, formError }` or in a
  redirect that sets the session cookie.

  String lengths count the characters of the model's strings, which are Unicode
  scalar values. JavaScript's `length` counts UTF-16 code units, so a character
  outside the Basic Multilingual Plane counts once here and twice there.
*/
module Login {
  import opened Wrappers
  import opened Forms
  import opened Db
  import opened Session

  const UsernameTooShort := "Usernames must be at least three characters long"
  const PasswordTooShort := "Passwords must be at least six characters long"
  const NotSubmitted := "Form not submitted correctly."
  const IncorrectCredentials := "Username/Password combination is incorrect"
  const LoginTypeInvalid := "Login type invalid"

  /** The destinations `validateUrl` lets through. */
  const AllowedRedirects := ["/jokes", "/", "https://remix.run"]

  /** `validateUsername`: an error only for a non-empty username under three characters. */
  function ValidateUsername(username: string): (r: Option<string>)
    ensures r.Some? <==> 0 < |username| < 3
    ensures r.Some? ==> r.value == UsernameTooShort
    ensures username == "" ==> r == None
  {
    if username != "" && |username| < 3 then Some(UsernameTooShort) else None
  }

  /** `validatePassword`: an error only for a non-empty password under six characters. */
  function ValidatePassword(password: string): (r: Option<string>)
    ensures r.Some? <==> 0 < |password| < 6
    ensures r.Some? ==> r.value == PasswordTooShort
    ensures password == "" ==> r == None
  {
    if password != "" && |password| < 6 then Some(PasswordTooShort) else None
  }

  /**
    `validateUrl`: the url itself when it is on the allow-list, `/jokes` otherwise.
    The action never calls it.
  */
  function ValidateUrl(url: string): (r: string)
    ensures r in AllowedRedirects
    ensures r == url <==> url in AllowedRedirects
    ensures url !in AllowedRedirects ==> r == "/jokes"
  {
    if url != "" && url in AllowedRedirects then url else "/jokes"
  }

  lemma ValidateUrlIdempotent(url: string)
    ensures ValidateUrl(ValidateUrl(url)) == ValidateUrl(url)
  {
  }

  /** A foreign site is replaced by `/jokes`; `/` and `/jokes` pass unchanged. */
  lemma ValidateUrlExamples()
    ensures ValidateUrl("http://evil.example") == "/jokes"
    ensures ValidateUrl("/") == "/" && ValidateUrl("/jokes") == "/jokes"
  {
    assert "http://evil.example" !in AllowedRedirects by {
      assert |"http://evil.example"| == 19;
      assert forall u :: u in AllowedRedirects ==> |u| != 19;
    }
  }

  // ---------------------------------------------------------------------------
  // The action's payloads

  datatype Fields = Fields(loginType: string, password: string, username: string)

  datatype FieldErrors = FieldErrors(password: Option<string>, username: Option<string>)

  /** The body of a `badRequest` (status 400); `None` is `null`. */
  datatype ActionData = ActionData(fieldErrors: Option<FieldErrors>, fields: Option<Fields>, formError: Option<string>)

  /** What the action produces: a 400 payload, a redirect, or a thrown database error. */
  datatype ActionResult = BadRequest(data: ActionData) | Redirect(response: Response) | Failed(thrown: Thrown)

  /** The outcome of the action's checks before it dispatches on `loginType`. */
  datatype FormCheck = Rejected(data: ActionData) | Accepted(fields: Fields)

  predicate IsText(v: FormValue)
  {
    v.Some? && v.value.Text?
  }

  /**
    The type check and the length check of the action: any field that is not a
    string rejects the form with no field errors and no fields; otherwise any
    length error rejects it with both field errors and the fields; otherwise the
    fields go on.
  */
  function CheckForm(loginType: FormValue, password: FormValue, username: FormValue): (r: FormCheck)
    ensures !(IsText(loginType) && IsText(password) && IsText(username)) ==>
      r == Rejected(ActionData(None, None, Some(NotSubmitted)))
    ensures IsText(loginType) && IsText(password) && IsText(username) ==>
      var fields := Fields(loginType.value.text, password.value.text, username.value.text);
      && (r.Accepted? <==> (|fields.password| == 0 || |fields.password| >= 6) && (|fields.username| == 0 || |fields.username| >= 3))
      && (r.Accepted? ==> r.fields == fields)
      && (r.Rejected? ==> r.data == ActionData(
            Some(FieldErrors(ValidatePassword(fields.password), ValidateUsername(fields.username))),
            Some(fields), None))
  {
    if !IsText(loginType) || !IsText(password) || !IsText(username) then
      Rejected(ActionData(None, None, Some(NotSubmitted)))
    else
      var fields := Fields(loginType.value.text, password.value.text, username.value.text);
      var fieldErrors := FieldErrors(ValidatePassword(fields.password), ValidateUsername(fields.username));
      if fieldErrors.password.Some? || fieldErrors.username.Some? then
        Rejected(ActionData(Some(fieldErrors), Some(fields), None))
      else Accepted(fields)
  }

  /** The checks applied to a submitted form's three fields. */
  function Submitted(form: FormData): FormCheck
  {
    CheckForm(Get(form, "loginType"), Get(form, "password"), Get(form, "username"))
  }

  /** The form error for registering a taken username. */
  function UserExists(username: string): string
  {
    "User with username " + username + " already exists"
  }

  /**
    What the action decides for a form against a user table: its result and the
    table afterwards. `hasher` and `salt` stand for bcrypt and its random salt,
    `newId` for the id the database would give a new user.
  */
  function Decide(users: Users, form: FormData, hasher: Hasher, salt: Salt, newId: UserId): (r: (ActionResult, Users))
    ensures r.1 != users ==> r.0.Redirect? && r.0.response.setCookie == Commit(map["userId" := JString(newId)])
    ensures r.1 != users ==> Submitted(form).Accepted? && Submitted(form).fields.loginType == "register"
    ensures r.0.Redirect? ==> r.0.response.location == Stringify(Get(form, "redirectTo"))
  {
    var redirectTo := Stringify(Get(form, "redirectTo"));
    match Submitted(form)
    case Rejected(data) => (BadRequest(data), users)
    case Accepted(fields) =>
      if fields.loginType == "login" then
        match Login(users, hasher, fields.password, fields.username)
        case None => (BadRequest(ActionData(None, Some(fields), Some(IncorrectCredentials))), users)
        case Some(user) => (Redirect(SessionRedirect(user.id, redirectTo)), users)
      else if fields.loginType == "register" then
        if fields.username in users then
          (BadRequest(ActionData(None, Some(fields), Some(UserExists(fields.username)))), users)
        else if IdInUse(users, newId) then
          (Failed(DatabaseError), users)
        else
          (Redirect(SessionRedirect(newId, redirectTo)),
           users[fields.username := UserRow(newId, hasher.hash(fields.password, salt))])
      else (BadRequest(ActionData(None, Some(fields), Some(LoginTypeInvalid))), users)
  }

  /** The four fields the action reads, through `getFromForm`. */
  method ReadForm(form: FormData) returns (loginType: FormValue, password: FormValue, username: FormValue, redirectTo: FormValue)
    ensures loginType == Get(form, "loginType") && password == Get(form, "password")
    ensures username == Get(form, "username") && redirectTo == Get(form, "redirectTo")
  {
    var values := GetFromForm(form, ["loginType", "password", "username", "redirectTo"]);
    assert "loginType" in values && "password" in values && "username" in values && "redirectTo" in values;
    loginType, password, username, redirectTo :=
      values["loginType"], values["password"], values["username"], values["redirectTo"];
  }

  /**
    The login route's `action`, run against the user store: its result and the
    store afterwards are what `Decide` says.
  */
  method Action(store: UserStore, form: FormData, hasher: Hasher, salt: Salt, newId: UserId) returns (r: ActionResult)
    requires store.Valid()
    modifies store
    ensures store.Valid()
    ensures (r, store.users) == Decide(old(store.users), form, hasher, salt, newId)
  {
    var loginType, password, username, redirectTo := ReadForm(form);
    var check := CheckForm(loginType, password, username);
    assert check == Submitted(form);
    if check.Rejected? {
      return BadRequest(check.data);
    }
    var fields := check.fields;

    if fields.loginType == "login" {
      var user := Login(store.users, hasher, fields.password, fields.username);
      if user.None? {
        return BadRequest(ActionData(None, Some(fields), Some(IncorrectCredentials)));
      }
      var response := CreateUserSession(user.value.id, Stringify(redirectTo));
      return Redirect(response);
    }

    if fields.loginType == "register" {
      var userExists := FindByUsername(store.users, fields.username);
      if userExists.Some? {
        return BadRequest(ActionData(None, Some(fields), Some(UserExists(fields.username))));
      }
      var user := Register(store, hasher, salt, newId, fields.password, fields.username);
      if user.Throw? {
        return Failed(user.thrown);
      }
      // register never resolves to a falsy value, so the source's
      // "Something went wrong" branch cannot be taken.
      var response := CreateUserSession(user.value.id, Stringify(redirectTo));
      return Redirect(response);
    }

    return BadRequest(ActionData(None, Some(fields), Some(LoginTypeInvalid)));
  }

  // ---------------------------------------------------------------------------
  // What the action promises

  /** A field that is not a string is reported alone, before any validation or lookup. */
  lemma MalformedForm(users: Users, form: FormData, hasher: Hasher, salt: Salt, newId: UserId)
    requires !(IsText(Get(form, "loginType")) && IsText(Get(form, "password")) && IsText(Get(form, "username")))
    ensures Decide(users, form, hasher, salt, newId) == (BadRequest(ActionData(None, None, Some(NotSubmitted))), users)
  {
  }

  /** A length error is reported field by field, with no form error, and the table is untouched. */
  lemma InvalidFields(users: Users, form: FormData, hasher: Hasher, salt: Salt, newId: UserId,
                      loginType: string, password: string, username: string)
    requires Get(form, "loginType") == Some(Text(loginType))
    requires Get(form, "password") == Some(Text(password))
    requires Get(form, "username") == Some(Text(username))
    requires 0 < |password| < 6 || 0 < |username| < 3
    ensures Decide(users, form, hasher, salt, newId) ==
      (BadRequest(ActionData(Some(FieldErrors(ValidatePassword(password), ValidateUsername(username))),
                             Some(Fields(loginType, password, username)), None)), users)
  {
  }

  /**
    Logging in with an unknown username and with a wrong password produce the
    same answer, so a caller cannot tell them apart.
  */
  lemma LoginFailuresIndistinguishable(users: Users, form: FormData, hasher: Hasher, salt: Salt, newId: UserId,
                                       password: string, username: string)
    requires Submitted(form) == Accepted(Fields("login", password, username))
    requires username !in users || !hasher.compare(password, users[username].passwordHash)
    ensures Decide(users, form, hasher, salt, newId) ==
      (BadRequest(ActionData(None, Some(Fields("login", password, username)), Some(IncorrectCredentials))), users)
  {
  }

  /**
    Logging in with a username that exists and a password that verifies against
    its stored hash starts a session for that user, and the table is untouched.
  */
  lemma LoginSucceeds(users: Users, form: FormData, hasher: Hasher, salt: Salt, newId: UserId,
                      password: string, username: string)
    requires Submitted(form) == Accepted(Fields("login", password, username))
    requires username in users && hasher.compare(password, users[username].passwordHash)
    ensures Decide(users, form, hasher, salt, newId) ==
      (Redirect(SessionRedirect(users[username].id, Stringify(Get(form, "redirectTo")))), users)
  {
  }

  /** Registering a taken username names it in the error and creates nobody. */
  lemma RegisterTakenUsername(users: Users, form: FormData, hasher: Hasher, salt: Salt, newId: UserId,
                              password: string, username: string)
    requires Submitted(form) == Accepted(Fields("register", password, username))
    requires username in users
    ensures Decide(users, form, hasher, salt, newId) ==
      (BadRequest(ActionData(None, Some(Fields("register", password, username)),
                             Some("User with username " + username + " already exists"))), users)
  {
  }

  /**
    A successful registration adds exactly one user, holding the new id and a hash
    of the password, leaves every other user as it was, keeps ids unique, and
    starts a session for the new id.
  */
  lemma RegisterAddsOneUser(users: Users, form: FormData, hasher: Hasher, salt: Salt, newId: UserId,
                            password: string, username: string)
    requires IdsUnique(users)
    requires Submitted(form) == Accepted(Fields("register", password, username))
    requires username !in users && !IdInUse(users, newId)
    ensures var (result, after) := Decide(users, form, hasher, salt, newId);
      && result == Redirect(SessionRedirect(newId, Stringify(Get(form, "redirectTo"))))
      && after.Keys == users.Keys + {username}
      && |after| == |users| + 1
      && after[username] == UserRow(newId, hasher.hash(password, salt))
      && (forall v :: v in users ==> after[v] == users[v])
      && IdsUnique(after)
  {
    var row := UserRow(newId, hasher.hash(password, salt));
    var after := users[username := row];
    assert Decide(users, form, hasher, salt, newId)
      == (Redirect(SessionRedirect(newId, Stringify(Get(form, "redirectTo")))), after);
    assert after.Keys == users.Keys + {username};
    AddKeepsIdsUnique(users, username, row);
  }

  /** Registering and then logging in with the same username and password starts a session for the new user. */
  lemma RegisterThenLogin(users: Users, registerForm: FormData, loginForm: FormData, hasher: Hasher,
                          salt: Salt, newId: UserId, password: string, username: string)
    requires Sound(hasher)
    requires Submitted(registerForm) == Accepted(Fields("register", password, username))
    requires Submitted(loginForm) == Accepted(Fields("login", password, username))
    requires username !in users && !IdInUse(users, newId)
    ensures var after := Decide(users, registerForm, hasher, salt, newId).1;
      Decide(after, loginForm, hasher, salt, newId)
        == (Redirect(SessionRedirect(newId, Stringify(Get(loginForm, "redirectTo")))), after)
  {
    LoginAfterRegister(users, hasher, salt, newId, password, username);
  }

  /** Any other login type is refused as invalid, and the table is untouched. */
  lemma UnknownLoginType(users: Users, form: FormData, hasher: Hasher, salt: Salt, newId: UserId,
                         loginType: string, password: string, username: string)
    requires Submitted(form) == Accepted(Fields(loginType, password, username))
    requires loginType != "login" && loginType != "register"
    ensures Decide(users, form, hasher, salt, newId) ==
      (BadRequest(ActionData(None, Some(Fields(loginType, password, username)), Some(LoginTypeInvalid))), users)
  {
  }

  /**
    Every redirect goes to the submitted `redirectTo` as it stands: `validateUrl`
    is never applied, so a target off the allow-list is followed.
  */
  lemma RedirectTargetNotValidated(users: Users, form: FormData, hasher: Hasher, salt: Salt, newId: UserId,
                                   target: string)
    requires Get(form, "redirectTo") == Some(Text(target))
    requires Decide(users, form, hasher, salt, newId).0.Redirect?
    ensures Decide(users, form, hasher, salt, newId).0.response.location == target
    ensures target !in AllowedRedirects ==> Decide(users, form, hasher, salt, newId).0.response.location != ValidateUrl(target)
  {
    assert Stringify(Get(form, "redirectTo")) == target;
  }

  /** A registration form whose `redirectTo` is off the allow-list. */
  const EvilRedirectForm: FormData :=
    [("loginType", Text("register")), ("username", Text("alice")),
     ("password", Text("s3cret!")), ("redirectTo", Text("http://evil.example"))]

  /** The values `formData.get` reads from that form. */
  lemma EvilRedirectFormFields()
    ensures Get(EvilRedirectForm, "loginType") == Some(Text("register"))
    ensures Get(EvilRedirectForm, "password") == Some(Text("s3cret!"))
    ensures Get(EvilRedirectForm, "username") == Some(Text("alice"))
    ensures Get(EvilRedirectForm, "redirectTo") == Some(Text("http://evil.example"))
    ensures Submitted(EvilRedirectForm) == Accepted(Fields("register", "s3cret!", "alice"))
  {
    var form := EvilRedirectForm;
    assert form[0].0 == "loginType" && form[1].0 == "username" && form[2].0 == "password" && form[3].0 == "redirectTo";
    assert |"s3cret!"| == 7 && |"alice"| == 5;
  }

  /** Registering with that form redirects to the foreign site. */
  lemma OpenRedirectExample(hasher: Hasher)
    ensures Decide(map[], EvilRedirectForm, hasher, 0, "u1").0 == Redirect(SessionRedirect("u1", "http://evil.example"))
    ensures ValidateUrl("http://evil.example") == "/jokes"
  {
    EvilRedirectFormFields();
    assert !IdInUse(map[], "u1");
    RegisterAddsOneUser(map[], EvilRedirectForm, hasher, 0, "u1", "s3cret!", "alice");
    ValidateUrlExamples();
  }

  /**
    The action with `validateUrl` applied to `redirectTo`, as the allow-list
    beside it intends: the same answers and the same table, with every redirect
    sent to a destination on the allow-list.
  */
  function DecideValidated(users: Users, form: FormData, hasher: Hasher, salt: Salt, newId: UserId): (r: (ActionResult, Users))
    ensures r.1 == Decide(users, form, hasher, salt, newId).1
    ensures r.0.Redirect? <==> Decide(users, form, hasher, salt, newId).0.Redirect?
    ensures !r.0.Redirect? ==> r.0 == Decide(users, form, hasher, salt, newId).0
    ensures r.0.Redirect? ==>
      && r.0.response.location in AllowedRedirects
      && r.0.response.location == ValidateUrl(Stringify(Get(form, "redirectTo")))
      && r.0.response.setCookie == Decide(users, form, hasher, salt, newId).0.response.setCookie
  {
    var (result, after) := Decide(users, form, hasher, salt, newId);
    if result.Redirect? then
      (Redirect(result.response.(location := ValidateUrl(result.response.location))), after)
    else (result, after)
  }

  /** With `validateUrl` applied, the same registration lands on `/jokes`. */
  lemma ValidatedRedirectExample(hasher: Hasher)
    ensures DecideValidated(map[], EvilRedirectForm, hasher, 0, "u1").0 == Redirect(SessionRedirect("u1", "/jokes"))
  {
    OpenRedirectExample(hasher);
  }
}
