# Account rules of the start screen

This project models the sign-in and sign-up logic of the app's start
screen (`app/index.tsx`). The logic has four parts:

- the password-format rule `validatePassword`, the regular expression
  `/^(?=.*[A-Z])(?=.*[\W_]).{8,}$/`. The login form and the sign-up form each
  hold a copy, and the two literals are identical, so one predicate
  (`PasswordRule.ValidatePassword`) models both;
- the login handler `handleLogin`, which checks the password format, then
  empty fields, then whether the name exists, then whether name and
  password match;
- the sign-up handler `handleRegister`, which checks that the two
  passwords agree, then that no field is empty, then the password format,
  then that the name is free, and only then inserts one row;
- the root component's `handleNavigation`, which sets the current screen
  and stores the user name only when it is given a non-empty one.

Layout:

- `wrappers.dfy`: `Option`.
- `password_rule.dfy` (module `PasswordRule`): the regular expression over
  UTF-16 code units. A JavaScript regular expression without the `u` flag
  matches code units, and `String.length` counts them, so a character outside
  the Basic Multilingual Plane counts twice towards `{8,}`. The module
  proves that the rule is exactly "at least 8 code units, no line
  terminator, some `A`-`Z`, some character that is not an ASCII letter or
  digit".
- `users_table.dfy` (module `UsersTable`): the `users` table as a sequence
  of rows `(id, username, password)`. The invariant `Valid()` states the
  UNIQUE constraint on `username` and the AUTOINCREMENT ids. The module
  also has the two `getFirstAsync` queries (`SelectFirst`), the dictionary
  view `AccountsOf`, and `INSERT`.
- `account_rules.dfy` (module `AccountRules`): what each handler decides,
  written as pure functions of the accounts dictionary and the inputs
  (`LoginDecision`, `RegisterDecision`), then the alerts, and lemmas about
  check order, the single-row insert and sign-up-then-login.
- `auth_screens.dfy` (module `AuthScreens`): the components as classes.
  `Login` holds `currentScreen` and `userName`. `LoginScreen` and
  `RegisterScreen` hold their inputs and the inline password error, and
  share one `Table`. Each handler runs the component's own steps on the rows and
  is proved equal to the pure decision over the dictionary view.

Inputs to the model:

- The handlers do not call `Alert.alert` or `router.navigate`. They return
  the alert (title and message) and the route they would pass instead.
- `db.getFirstAsync` and `db.runAsync` become reads and one update of the
  shared `Table` object.

Facts the model makes visible:

- In `handleLogin` the format check runs before the empty-field check.
  Because a well-formed password is never empty, an empty password always
  gets the inline format error, and the "Please enter both email and
  password" alert appears only for an empty name
  (`AccountRules.LoginDecision`, `PasswordRule.ValidPasswordNotEmpty`).
- Successful login and sign-up navigate with `router.navigate` and do not
  call `handleNavigation`. The `HomeScreen` logout calls
  `navigate("Login")` without a name, which keeps the stored name
  (`AuthScreens.NavigateMeaning`).

## Model

| member | source | states |
|---|---|---|
| `PasswordRule.ValidatePasswordMeaning` | app/index.tsx:95-98 | the regex accepts a string exactly when it is at least 8 code units long, has no `\n`, `\r`, U+2028 or U+2029, has an `A`-`Z`, and has a character outside `[A-Za-z0-9]` |
| `PasswordRule.PatternMatchesMeaning` | app/index.tsx:96 | over code units, the two lookaheads `(?=.*K)` reduce to "some unit of class K", because `.{8,}$` already requires every unit to match `.` |
| `PasswordRule.Utf16Class` | app/index.tsx:96 | a character class occurs in the UTF-16 encoding exactly when a character of that class occurs in the string (surrogate halves are `[\W_]` and nothing else) |
| `PasswordRule.Utf16LengthBounds` | app/index.tsx:96 | the count that `{8,}` uses lies between the number of characters and twice that, and equals it when every character is in the Basic Multilingual Plane |
| `PasswordRule.ValidPasswordNotEmpty` | app/index.tsx:102-111 | a password that passes the rule has at least 4 characters, so the empty-password half of the login check never fires |
| `PasswordRule.AcceptsUnderscore` | app/index.tsx:238-241 | "Secret_1" passes: the underscore counts as special and 8 characters are enough |
| `PasswordRule.RejectsSevenCharacters` | app/index.tsx:238-241 | the seven-ASCII-character password "Secr_1A" fails, being only seven code units long |
| `PasswordRule.RejectsWithoutUpper` | app/index.tsx:238-241 | a password with no `A`-`Z` fails |
| `PasswordRule.RejectsWithoutSpecial` | app/index.tsx:238-241 | digits are not special, so "Secret123" fails |
| `PasswordRule.RejectsLineFeed` | app/index.tsx:238-241 | `.` does not match a line feed, so a password containing one fails |
| `PasswordRule.AcceptsFiveAstralCharacters` | app/index.tsx:238-241 | five characters, three of them emoji, make eight code units and pass |
| `UsersTable.SelectFirstMeaning` | app/index.tsx:117-128 | `getFirstAsync` returns the first row that satisfies the WHERE clause, and nothing exactly when no row does |
| `UsersTable.AccountsOfNames` | app/index.tsx:39-43 | the names in the dictionary view are exactly the names in the rows |
| `UsersTable.AccountsOfRows` | app/index.tsx:41 | under the UNIQUE constraint each row is its name's entry in the dictionary view |
| `UsersTable.AppendFreshName` | app/index.tsx:279-282 | appending a row with an unused name keeps names unique and adds exactly that one entry |
| `UsersTable.AppendNextId` | app/index.tsx:40 | appending the next AUTOINCREMENT id keeps ids increasing and bounded by the sequence value |
| `UsersTable.SelectAgreesWithAccounts` | app/index.tsx:117-128 | the name query finds a row exactly when the name is registered; the name-and-password query finds one exactly when the name is registered with that password |
| `UsersTable.Table.constructor` | app/index.tsx:37-44 | a freshly created table is empty and valid |
| `UsersTable.Table.Insert` | app/index.tsx:279-282 | `INSERT` is refused when the name is taken (UNIQUE); otherwise it appends one row with the next id and adds exactly `name -> password`; the invariant is kept |
| `AccountRules.LoginDecision` | app/index.tsx:101-136 | the "enter both" outcome happens only for an empty user name |
| `AccountRules.LoginCheckOrder` | app/index.tsx:101-136 | each failure outcome is the first failing check, in the order format, empty name, unknown name, wrong password |
| `AccountRules.LoginSucceedsIff` | app/index.tsx:117-133 | login succeeds exactly when the password meets the rule, the name is non-empty, and the table maps the name to exactly that password |
| `AccountRules.LoginReadsOnlyOwnEntry` | app/index.tsx:102-128 | the outcome depends on the table only through the entry for the given name; a badly formatted password is refused whatever the table holds |
| `AccountRules.RegisterDecision` | app/index.tsx:244-277 | sign-up succeeds only for an unused name with matching passwords |
| `AccountRules.RegisterCheckOrder` | app/index.tsx:245-277 | each outcome is the first failing check, in the order mismatch, empty field, format, name taken; success exactly when all pass |
| `AccountRules.RegisterChangesOneEntry` | app/index.tsx:270-283 | a failed sign-up leaves the accounts as they were; a successful one adds just the new name, with its password, making one more account, and every other name keeps its password |
| `AccountRules.RegisterThenLogin` | app/index.tsx:279-282 | after a successful sign-up, logging in with the same name and password succeeds |
| `AccountRules.RegisterTwiceIsTaken` | app/index.tsx:270-277 | a name that has signed up cannot sign up again |
| `AccountRules.RegisterThenWrongPassword` | app/index.tsx:125-136 | after sign-up, logging in under that name with a different well-formed password gives "Incorrect password" |
| `AuthScreens.NavigateMeaning` | app/index.tsx:59-67 | navigation always sets the screen; it stores the name only when the name is non-empty, and otherwise keeps the old name |
| `AuthScreens.NavigateIdempotent` | app/index.tsx:59-67 | navigating twice with the same arguments has the same effect as navigating once |
| `AuthScreens.NavigateWithoutUserAbsorbed` | app/index.tsx:59-67 | a navigation without a name is undone by the next navigation in everything but the stored name, which it never touched |
| `AuthScreens.Login.constructor` | app/index.tsx:53-56 | the root component starts on the login screen with an empty name |
| `AuthScreens.Login.HandleNavigation` | app/index.tsx:59-67 | the new state is `Navigate` applied to the old state |
| `AuthScreens.LoginScreen.constructor` | app/index.tsx:88-92 | the form starts with empty inputs and no error |
| `AuthScreens.LoginScreen.HandleLogin` | app/index.tsx:101-140 | running the two queries of `handleLogin` on the rows gives `LoginDecision` of the dictionary view; the table is unchanged; the alert and route follow from the outcome; the inline error is the format message or is cleared; the inputs are cleared on success and kept on failure |
| `AuthScreens.RegisterScreen.constructor` | app/index.tsx:229-235 | the form starts with empty inputs and no error |
| `AuthScreens.RegisterScreen.HandleRegister` | app/index.tsx:244-288 | the outcome is `RegisterDecision` of the dictionary view; the table becomes `AccountsAfterRegister` (one appended row on success, unchanged otherwise) and stays valid; the inputs are kept; the inline error is changed only once the format check is reached |
| `AuthScreens.SignUpThenLogIn` | app/index.tsx:279-284 | a successful sign-up on the sign-up form, followed by a login with the same name and password on the login form over the same table, succeeds |

## Left out

- JSX rendering, styles, `CustomCheckbox`, and the show-password and
  remember-me toggles: user interface with no logic beyond flipping a flag.
- `handleForgotPassword` (app/index.tsx:143-148): it shows one fixed
  alert and has no logic.
- `passwordValid`, and the call `validatePassword(text)` in the sign-up
  form's `onChangeText`: that call's result is thrown away, so it has no
  effect.
- The `expo-sqlite` provider, the WAL pragma and the database file. The
  table is modelled as the shared `Table` object, created empty.
- The `try`/`catch` blocks around the database calls. These are
  input/output failures that are only logged; the model's queries and
  inserts always succeed.
- `UsersTable.Table.Insert`: a UNIQUE violation is modelled as a refused
  insert returning `false`, not as a thrown error. The sign-up handler's
  own check means this path is never taken.
- Async sequencing: each handler is one atomic step, so two overlapping
  taps are not modelled.
- `Alert.alert`, `router.navigate` and `console.log` are foreign calls.
  The handlers return the alert and the route; logging is dropped.
- Lone UTF-16 surrogates: a Dafny `string` holds Unicode scalar values
  only, so an input that is not valid UTF-16 cannot be expressed.
- `constants/hospitalData.ts`, `tailwind.config.js`, `jest.setup.js` and
  the tests: static data, build configuration and render tests of screens
  that are not part of this model.
