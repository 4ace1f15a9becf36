/**
 * The three components of the start screen: the root `Login` component,
 * which keeps the current screen and the signed-in name, and the
 * `LoginScreen` and `RegisterScreen` forms, which share the `users` table.
 * Each handler is one atomic step; its alert and its `router.navigate`
 * target are returned instead of performed.
 */
module AuthScreens {

  import opened Wrappers
  import opened PasswordRule
  import opened UsersTable
  import opened AccountRules

  /** The screen names `"Login" | "Register" | "Home"`. */
  datatype Screen = LoginView | RegisterView | HomeView

  datatype NavState = NavState(currentScreen: Screen, userName: string)

  /** JavaScript truthiness of the optional `user?: string` argument:
      `undefined` and `""` are falsy. */
  predicate Truthy(user: Option<string>)
  {
    user.Some? && user.value != ""
  }

  /** `handleNavigation(screen, user)` as a function of the state. */
  function Navigate(s: NavState, screen: Screen, user: Option<string>): (t: NavState)
  {
    NavState(screen, if Truthy(user) then user.value else s.userName)
  }

  /** The screen is always the one asked for; the stored name changes only
      to a non-empty `user`, otherwise it is kept. */
  lemma NavigateMeaning(s: NavState, screen: Screen, user: Option<string>)
    ensures Navigate(s, screen, user).currentScreen == screen
    ensures Truthy(user) ==> Navigate(s, screen, user).userName == user.value
    ensures !Truthy(user) ==> Navigate(s, screen, user).userName == s.userName
  {
  }

  /** Navigating twice with the same arguments is the same as once. */
  lemma NavigateIdempotent(s: NavState, screen: Screen, user: Option<string>)
    ensures Navigate(Navigate(s, screen, user), screen, user) == Navigate(s, screen, user)
  {
  }

  /** A navigation without a user name is forgotten by the next one: only
      the last screen counts, and the stored name is untouched by it. */
  lemma NavigateWithoutUserAbsorbed(s: NavState, first: Screen, screen: Screen, user: Option<string>)
    ensures Navigate(Navigate(s, first, None), screen, user) == Navigate(s, screen, user)
  {
  }

  /** The root component `Login`. */
  class Login {
    var currentScreen: Screen
    var userName: string

    function State(): (s: NavState)
      reads this
    {
      NavState(currentScreen, userName)
    }

    constructor ()
      ensures State() == NavState(LoginView, "")
    {
      currentScreen := LoginView;
      userName := "";
    }

    method HandleNavigation(screen: Screen, user: Option<string>)
      modifies this
      ensures State() == Navigate(old(State()), screen, user)
      ensures currentScreen == screen
      ensures userName == if Truthy(user) then user.value else old(userName)
    {
      currentScreen := screen;
      if Truthy(user) {
        userName := user.value;
      }
    }
  }

  /** The `LoginScreen` form: its inputs, its inline error (`null` at
      first) and the shared table. */
  class LoginScreen {
    const db: Table
    var userName: string
    var password: string
    var passwordError: Option<string>

    constructor (db: Table)
      ensures this.db == db && userName == "" && password == "" && passwordError == None
    {
      this.db := db;
      userName := "";
      password := "";
      passwordError := None;
    }

    /** `handleLogin`: the table is only read; on success both inputs are
        cleared, on any failure they are kept. */
    method HandleLogin() returns (outcome: LoginOutcome, alert: Option<Alert>, route: Option<string>)
      requires db.Valid()
      modifies this
      ensures unchanged(db)
      ensures outcome == LoginDecision(old(db.Accounts()), old(userName), old(password))
      ensures alert == LoginAlert(outcome)
      ensures route == if outcome == LoginOk then Some(TabsRoute) else None
      ensures passwordError == Some(if outcome == LoginBadFormat then PasswordFormatMessage else "")
      ensures outcome == LoginOk ==> userName == "" && password == ""
      ensures outcome != LoginOk ==> userName == old(userName) && password == old(password)
    {
      route := None;
      if !ValidatePassword(password) {
        passwordError := Some(PasswordFormatMessage);
        outcome := LoginBadFormat;
        alert := LoginAlert(outcome);
        return;
      }
      passwordError := Some("");

      if |userName| == 0 || |password| == 0 {
        outcome := LoginMissingField;
        alert := LoginAlert(outcome);
        return;
      }
      SelectAgreesWithAccounts(db.rows, userName, password);
      var user := SelectFirst(db.rows, ByName(userName));
      if user.None? {
        outcome := LoginUnknownUser;
        alert := LoginAlert(outcome);
        return;
      }
      var validUser := SelectFirst(db.rows, ByCredentials(userName, password));
      if validUser.Some? {
        outcome := LoginOk;
        alert := LoginAlert(outcome);
        route := Some(TabsRoute);
        userName := "";
        password := "";
      } else {
        outcome := LoginWrongPassword;
        alert := LoginAlert(outcome);
      }
    }
  }

  /** The `RegisterScreen` form. */
  class RegisterScreen {
    const db: Table
    var userName: string
    var password: string
    var repeatPassword: string
    var passwordError: Option<string>

    constructor (db: Table)
      ensures this.db == db && userName == "" && password == "" && repeatPassword == ""
      ensures passwordError == None
    {
      this.db := db;
      userName := "";
      password := "";
      repeatPassword := "";
      passwordError := None;
    }

    /** `handleRegister`: the inputs are never cleared; the inline error is
        touched only once the format check is reached; the table gains one
        row exactly when every check passes. */
    method HandleRegister() returns (outcome: RegisterOutcome, alert: Option<Alert>, route: Option<string>)
      requires db.Valid()
      modifies this, db
      ensures db.Valid()
      ensures outcome == RegisterDecision(old(db.Accounts()), old(userName), old(password), old(repeatPassword))
      ensures db.Accounts() == AccountsAfterRegister(old(db.Accounts()), old(userName), old(password), old(repeatPassword))
      ensures outcome == RegisterOk ==>
                db.rows == old(db.rows) + [UserRow(old(db.lastId) + 1, userName, password)]
      ensures outcome != RegisterOk ==> unchanged(db)
      ensures alert == RegisterAlert(outcome)
      ensures route == if outcome == RegisterOk then Some(TabsRoute) else None
      ensures userName == old(userName) && password == old(password) && repeatPassword == old(repeatPassword)
      ensures passwordError == match outcome
                               case RegisterMismatch => old(passwordError)
                               case RegisterMissingField => old(passwordError)
                               case RegisterBadFormat => Some(PasswordFormatMessage)
                               case _ => Some("")
    {
      route := None;
      if password != repeatPassword {
        outcome := RegisterMismatch;
        alert := RegisterAlert(outcome);
        return;
      }
      if |userName| == 0 || |password| == 0 || |repeatPassword| == 0 {
        outcome := RegisterMissingField;
        alert := RegisterAlert(outcome);
        return;
      }
      if !ValidatePassword(password) {
        passwordError := Some(PasswordFormatMessage);
        outcome := RegisterBadFormat;
        alert := RegisterAlert(outcome);
        return;
      }
      passwordError := Some("");

      ghost var before := db.Accounts();
      assert RegisterDecision(before, userName, password, repeatPassword)
             == if userName in before then RegisterTaken else RegisterOk;
      SelectAgreesWithAccounts(db.rows, userName, password);
      var existingUser := SelectFirst(db.rows, ByName(userName));
      if existingUser.Some? {
        outcome := RegisterTaken;
        alert := RegisterAlert(outcome);
        return;
      }
      var inserted := db.Insert(userName, password);
      assert inserted;
      outcome := RegisterOk;
      alert := RegisterAlert(outcome);
      route := Some(TabsRoute);
    }
  }

  /** Signing up on the sign-up form and then logging in with the same
      name and password on the login form, both over one table. */
  method SignUpThenLogIn(db: Table, name: string, secret: string)
    returns (signUp: RegisterOutcome, logIn: LoginOutcome)
    requires db.Valid()
    modifies db
    ensures db.Valid()
    ensures signUp == RegisterDecision(old(db.Accounts()), name, secret, secret)
    ensures signUp == RegisterOk ==> logIn == LoginOk
    ensures signUp == RegisterOk ==> db.Accounts() == old(db.Accounts())[name := secret]
  {
    var register := new RegisterScreen(db);
    register.userName, register.password, register.repeatPassword := name, secret, secret;
    var alert, route;
    signUp, alert, route := register.HandleRegister();

    var login := new LoginScreen(db);
    login.userName, login.password := name, secret;
    logIn, alert, route := login.HandleLogin();
    if signUp == RegisterOk {
      RegisterThenLogin(old(db.Accounts()), name, secret, secret);
    }
  }
}
