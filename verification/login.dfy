/**
 The `login` view of hello.py and the `valid_login` check nested inside it.
 Python's dynamic values are reduced to what the check can tell apart.
 */
module Login {
  import opened Wrappers

  /** A Python value as `valid_login` sees it. */
  datatype Value = NoneValue | Str(text: string) | OtherObject

  /** The exception `valid_login` raises, naming the argument it rejected. */
  datatype Exception = TypeError(argument: string, shown: Value)

  /** How a Python call ends: it returns a value or raises. */
  datatype Outcome<T> = Returned(value: T) | Raised(error: Exception)

  /** One of the guards: `v != None and isinstance(v, str)`, raising when it fails. */
  function RequireString(argument: string, v: Value): (r: Outcome<bool>)
    ensures r == Returned(true) <==> v.Str?
    ensures r != Returned(true) ==> r == Raised(TypeError(argument, v))
  {
    if v != NoneValue && v.Str? then Returned(true) else Raised(TypeError(argument, v))
  }

  /**
   `valid_login` as written: both branches of the username guard leave the
   function, so the password guard after it is never reached.
   */
  function ValidLogin(username: Value, password: Value): (r: Outcome<bool>)
    ensures r != Returned(false)
    ensures r == Returned(true) <==> username.Str?
    ensures r.Raised? ==> r.error == TypeError("username", username)
  {
    RequireString("username", username)
  }

  /** The password never affects the result. */
  lemma PasswordIgnored(username: Value, password1: Value, password2: Value)
    ensures ValidLogin(username, password1) == ValidLogin(username, password2)
  {
  }

  /** A valid username with a None password is accepted. */
  lemma NonePasswordAccepted()
    ensures ValidLogin(Str("alice"), NoneValue) == Returned(true)
  {
  }

  /** `valid_login` with both guards in force, username first. */
  function ValidLoginBoth(username: Value, password: Value): (r: Outcome<bool>)
    ensures r != Returned(false)
    ensures r == Returned(true) <==> username.Str? && password.Str?
    ensures r.Raised? && username.Str? ==> r.error == TypeError("password", password)
    ensures !username.Str? ==> r == Raised(TypeError("username", username))
  {
    match RequireString("username", username)
    case Raised(e) => Raised(e)
    case Returned(_) => RequireString("password", password)
  }

  /** The two readings differ only when the username is a string and the password is not. */
  lemma ValidLoginReadingsAgree(username: Value, password: Value)
    ensures ValidLogin(username, password) == ValidLoginBoth(username, password)
      <==> !username.Str? || password.Str?
  {
  }

  /** The keyword arguments `render_template('login.html', ...)` is given. */
  datatype LoginPage =
    | Welcome(username: string)        // `username=username`
    | Form(error: Option<string>)      // `error=error`

  /** How the `login` view ends. */
  datatype LoginResponse =
    | Render(page: LoginPage)
    | BadRequest                       // `request.form[...]` has no such key; werkzeug answers 400
    | ServerError(error: Exception)    // an exception escaping `valid_login`

  const InvalidMessage: string := "Invalid username/password"

  /**
   The `login` view over the request's method and form fields. Form fields are
   always strings, and the username is read before the password.
   */
  function LoginView(verb: string, form: map<string, string>): (r: LoginResponse)
    ensures verb != "POST" ==> r == Render(Form(None))
    ensures r == BadRequest <==> verb == "POST" && ("username" !in form || "password" !in form)
  {
    if verb == "POST" then
      if "username" !in form then BadRequest
      else if "password" !in form then BadRequest
      else
        var username := form["username"];
        match ValidLogin(Str(username), Str(form["password"]))
        case Raised(e) => ServerError(e)
        case Returned(ok) =>
          if ok then Render(Welcome(username)) else Render(Form(Some(InvalidMessage)))
    else Render(Form(None))
  }

  /**
   A POST carrying both fields always renders the welcome page for that
   username: the "invalid" branch and the TypeError are both unreachable.
   */
  lemma LoginPostWelcomes(form: map<string, string>)
    requires "username" in form && "password" in form
    ensures LoginView("POST", form) == Render(Welcome(form["username"]))
  {
  }

  /** The view never shows the invalid-credentials message and never raises. */
  lemma LoginNeverRejects(verb: string, form: map<string, string>)
    ensures LoginView(verb, form) != Render(Form(Some(InvalidMessage)))
    ensures !LoginView(verb, form).ServerError?
  {
  }

  /** On the view's inputs the corrected check would give the same result as the one the view calls. */
  lemma FormInputsHideDeadBranch(username: string, password: string)
    ensures ValidLogin(Str(username), Str(password)) == ValidLoginBoth(Str(username), Str(password))
  {
  }
}
