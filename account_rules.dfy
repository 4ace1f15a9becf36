/**
 * What the login and sign-up handlers decide, as functions of the accounts
 * (user name to password) and the form inputs. Each handler runs its
 * checks in a fixed order and stops at the first one that fails; the
 * outcome names that check, and the alert the user sees follows from it.
 */
module AccountRules {

  import opened Wrappers
  import opened PasswordRule

  /** `Alert.alert(title, message)`. */
  datatype Alert = Alert(title: string, message: string)

  /** The inline error both screens show under the password field. */
  const PasswordFormatMessage: string :=
    "Password must be at least 8 characters long and include at least one uppercase letter and one special character."

  /** The route both handlers pass to `router.navigate` on success. */
  const TabsRoute: string := "/(tabs)/"

  // ---- Login ----------------------------------------------------------------

  datatype LoginOutcome =
    | LoginBadFormat      // the password fails the format rule
    | LoginMissingField   // "Please enter both email and password"
    | LoginUnknownUser    // "username does not exist!"
    | LoginWrongPassword  // "Incorrect password"
    | LoginOk             // "Login successful"

  /** The checks of `handleLogin`, in order: password format, empty fields,
      the name lookup, the name-and-password lookup. */
  function LoginDecision(accounts: map<string, string>, userName: string, password: string): (o: LoginOutcome)
    ensures o == LoginMissingField ==> userName == ""
  {
    if !ValidatePassword(password) then LoginBadFormat
    else
      ValidPasswordNotEmpty(password);
      if userName == "" || password == "" then LoginMissingField
      else if userName !in accounts then LoginUnknownUser
      else if accounts[userName] != password then LoginWrongPassword
      else LoginOk
  }

  function LoginAlert(o: LoginOutcome): (a: Option<Alert>)
  {
    match o
    case LoginBadFormat => None
    case LoginMissingField => Some(Alert("Attention", "Please enter both email and password"))
    case LoginUnknownUser => Some(Alert("Error", "username does not exist!"))
    case LoginWrongPassword => Some(Alert("Error", "Incorrect password"))
    case LoginOk => Some(Alert("Success", "Login successful"))
  }

  /** Each outcome of the login decision is the first failing check: the
      format check comes before everything, the empty-name check before any
      lookup, the existence lookup before the password lookup. */
  lemma LoginCheckOrder(accounts: map<string, string>, userName: string, password: string)
    ensures LoginDecision(accounts, userName, password) == LoginBadFormat <==> !MeetsPasswordRule(password)
    ensures LoginDecision(accounts, userName, password) == LoginMissingField <==>
              MeetsPasswordRule(password) && userName == ""
    ensures LoginDecision(accounts, userName, password) == LoginUnknownUser <==>
              MeetsPasswordRule(password) && userName != "" && userName !in accounts
    ensures LoginDecision(accounts, userName, password) == LoginWrongPassword <==>
              MeetsPasswordRule(password) && userName != "" && userName in accounts && accounts[userName] != password
  {
    ValidatePasswordMeaning(password);
  }

  /** Login succeeds exactly when the password meets the rule, the name is
      not empty and the accounts map that name to exactly that password. */
  lemma LoginSucceedsIff(accounts: map<string, string>, userName: string, password: string)
    ensures LoginDecision(accounts, userName, password) == LoginOk <==>
              MeetsPasswordRule(password) && userName != "" && userName in accounts && accounts[userName] == password
  {
    ValidatePasswordMeaning(password);
  }

  /** The decision consults nothing of the table but the entry of the given
      name; in particular a badly formatted password is refused whatever the
      table holds, before any lookup. */
  lemma LoginReadsOnlyOwnEntry(a: map<string, string>, b: map<string, string>, userName: string, password: string)
    requires userName in a <==> userName in b
    requires userName in a ==> a[userName] == b[userName]
    ensures LoginDecision(a, userName, password) == LoginDecision(b, userName, password)
  {
  }

  // ---- Registration ---------------------------------------------------------

  datatype RegisterOutcome =
    | RegisterMismatch      // "Passwords do not match."
    | RegisterMissingField  // "Please enter all the fields."
    | RegisterBadFormat     // the password fails the format rule
    | RegisterTaken         // "username already exists."
    | RegisterOk            // "Registration successful!"

  /** The checks of `handleRegister`, in order: the two passwords agree, no
      field is empty, password format, the name is not taken. */
  function RegisterDecision(accounts: map<string, string>, userName: string, password: string, repeatPassword: string)
    : (o: RegisterOutcome)
    ensures o == RegisterOk ==> userName !in accounts && password == repeatPassword
  {
    if password != repeatPassword then RegisterMismatch
    else if userName == "" || password == "" || repeatPassword == "" then RegisterMissingField
    else if !ValidatePassword(password) then RegisterBadFormat
    else if userName in accounts then RegisterTaken
    else RegisterOk
  }

  function RegisterAlert(o: RegisterOutcome): (a: Option<Alert>)
  {
    match o
    case RegisterMismatch => Some(Alert("Sign Up Failed", "Passwords do not match."))
    case RegisterMissingField => Some(Alert("Attention!", "Please enter all the fields."))
    case RegisterBadFormat => None
    case RegisterTaken => Some(Alert("Error", "username already exists."))
    case RegisterOk => Some(Alert("Success", "Registration successful!"))
  }

  /** The accounts after a sign-up attempt: one new entry on success, the
      same accounts otherwise. */
  function AccountsAfterRegister(accounts: map<string, string>, userName: string, password: string, repeatPassword: string)
    : (after: map<string, string>)
  {
    if RegisterDecision(accounts, userName, password, repeatPassword) == RegisterOk
    then accounts[userName := password]
    else accounts
  }

  /** Each outcome of the sign-up decision is the first failing check. */
  lemma RegisterCheckOrder(accounts: map<string, string>, userName: string, password: string, repeatPassword: string)
    ensures RegisterDecision(accounts, userName, password, repeatPassword) == RegisterMismatch <==>
              password != repeatPassword
    ensures RegisterDecision(accounts, userName, password, repeatPassword) == RegisterMissingField <==>
              password == repeatPassword && (userName == "" || password == "")
    ensures RegisterDecision(accounts, userName, password, repeatPassword) == RegisterBadFormat <==>
              password == repeatPassword && userName != "" && password != "" && !MeetsPasswordRule(password)
    ensures RegisterDecision(accounts, userName, password, repeatPassword) == RegisterTaken <==>
              password == repeatPassword && userName != "" && MeetsPasswordRule(password) && userName in accounts
    ensures RegisterDecision(accounts, userName, password, repeatPassword) == RegisterOk <==>
              password == repeatPassword && userName != "" && MeetsPasswordRule(password) && userName !in accounts
  {
    ValidatePasswordMeaning(password);
    ValidPasswordNotEmpty(password);
  }

  /** A failed sign-up leaves the accounts as they were; a successful one
      adds exactly the entry name to password, so there is one more account
      and every other account is untouched. */
  lemma RegisterChangesOneEntry(accounts: map<string, string>, userName: string, password: string, repeatPassword: string)
    ensures var after := AccountsAfterRegister(accounts, userName, password, repeatPassword);
      if RegisterDecision(accounts, userName, password, repeatPassword) == RegisterOk then
        && after.Keys == accounts.Keys + {userName}
        && |after| == |accounts| + 1
        && after[userName] == password
        && (forall n :: n in accounts ==> after[n] == accounts[n])
      else after == accounts
  {
    var after := AccountsAfterRegister(accounts, userName, password, repeatPassword);
    if RegisterDecision(accounts, userName, password, repeatPassword) == RegisterOk {
      assert after.Keys == accounts.Keys + {userName};
      assert |after.Keys| == |accounts.Keys| + 1;
    }
  }

  /** Signing up and then logging in with the same name and password
      succeeds. */
  lemma RegisterThenLogin(accounts: map<string, string>, userName: string, password: string, repeatPassword: string)
    requires RegisterDecision(accounts, userName, password, repeatPassword) == RegisterOk
    ensures LoginDecision(AccountsAfterRegister(accounts, userName, password, repeatPassword), userName, password) == LoginOk
  {
  }

  /** A name that has signed up cannot sign up again: once the earlier
      checks pass, the attempt ends with "username already exists.". */
  lemma RegisterTwiceIsTaken(accounts: map<string, string>, userName: string, password: string,
                             password': string, repeatPassword': string)
    requires RegisterDecision(accounts, userName, password, password) == RegisterOk
    ensures RegisterDecision(AccountsAfterRegister(accounts, userName, password, password),
                             userName, password', repeatPassword') != RegisterOk
  {
  }

  /** After signing up, logging in under that name with any other password
      that meets the rule is refused as an incorrect password. */
  lemma RegisterThenWrongPassword(accounts: map<string, string>, userName: string, password: string, other: string)
    requires RegisterDecision(accounts, userName, password, password) == RegisterOk
    ensures ValidatePassword(other) && other != password ==>
              LoginDecision(AccountsAfterRegister(accounts, userName, password, password), userName, other) == LoginWrongPassword
  {
  }
}
