# Session, counter and login checks of a React Native client, in Dafny

This project models the three pieces of sequential logic in a small mobile
client (a login form, a user list behind authentication, a counter widget):

- **The auth slice** (`auth_slice.dfy`, module `AuthSlice`). This is the global store's record
  `{isAuthenticated, user, sessionKey}`. It starts at `{false, null, 0}` and has two reducers.
  `loginSucceeded(user)` authenticates and stores the user, and leaves `sessionKey` alone.
  `logout` clears both and bumps `sessionKey`, whose change makes the home screen remount.
  The reducers are modelled twice. `Reduce`/`Run` work on values, for reasoning about
  action sequences. The class `AuthStore` has the three fields, and its methods update
  them in place like the reducers update their draft. A ghost history ties the object to `Run`.
- **The counter reducer** (`counter.dfy`, module `Counter`): `inc`, `dec` (floored at 0) and
  `reset`, folded over the widget's button presses from the initial value 0.
- **The login checks** (`login_screen.dfy`, module `LoginScreen`). `MatchesEmailRe` is the
  screen's `EMAIL_RE` (`^[^\s@]+@[^\s@]+\.[^\s@]+$`), written as an existential split of the
  string. `ComputeValid` is the memoised `valid` flag. `OnSubmit` is the submit handler; it
  returns both error messages and the `loginSucceeded` action it dispatches, if any.

`wrappers.dfy` holds the `Option` type that stands for `User | null` and for "nothing dispatched".

In this model, JavaScript's `\s` is the exact ECMAScript WhiteSpace and LineTerminator set.
`password.length` counts UTF-16 code units: a character outside the Basic Multilingual
Plane counts as two. The regular expression's character classes behave the same over
code units and over characters, because no surrogate is whitespace, `@` or `.`.

A login while already logged in replaces `user` with the new payload (`authSlice.ts:24-26`),
and `AuthStore.LoginSucceeded` does the same.

## Model

| member | source | states |
|---|---|---|
| AuthSlice.InitialState | src/store/authSlice.ts:14-18 | the initial state is logged out with no user (so consistent), and its key counts zero logouts |
| AuthSlice.Run | src/store/authSlice.ts:20-39 | dispatches a sequence of actions in order; from a consistent state the result is consistent, and the key never falls below the starting key |
| AuthSlice.AuthStore.constructor | src/store/authSlice.ts:14-18 | the store starts unauthenticated, with no user and session key 0 |
| AuthSlice.AuthStore.LoginSucceeded | src/store/authSlice.ts:24-28 | afterwards authenticated with `user` exactly the payload, even if already logged in; session key unchanged; the state is still the run of the whole history and the key equals its logout count |
| AuthSlice.AuthStore.Logout | src/store/authSlice.ts:29-34 | afterwards unauthenticated with no user, whatever the prior state; session key exactly one more, also when already logged out; key equals the logout count of the history |
| AuthSlice.AuthStore.Dispatch | src/store/authSlice.ts:20-39 | dispatching an action moves the object to the `Reduce` successor of its old state; the user is present iff authenticated; key equals the number of logouts dispatched so far |
| AuthSlice.Reduce | src/store/authSlice.ts:24-34 | every successor state has a user iff it is authenticated; login yields the payload as user, logout yields no user; the key never decreases and changes iff the action is a logout |
| AuthSlice.SessionKeyCountsLogouts | src/store/authSlice.ts:27-33 | after any action sequence, the key is the starting key plus the number of logouts in it, however they interleave with logins |
| AuthSlice.SessionKeyNeverDecreases | src/store/authSlice.ts:27-33 | the key at the end of any prefix of a run is at most the key at the end of the run |
| AuthSlice.ReachableInvariants | src/store/authSlice.ts:14-34 | every state reachable from the initial state has a user iff authenticated, and its key is the number of logouts so far |
| AuthSlice.AuthenticatedIffLoginSinceLastLogout | src/store/authSlice.ts:14-34 | from the initial state, authenticated iff some login occurred with no logout after it; a present user is the payload of such a login, and in fact of the last action, which is a login |
| AuthSlice.LoginLogoutScenario | src/store/authSlice.ts:14-34 | login, logout, login, logout, logout gives `{true, a@b.com, 0}`, then `{false, null, 1}`, and finally `{false, null, 3}` |
| Counter.Reduce | src/components/Counter.tsx:6-17 | a non-negative state stays non-negative; `inc` increases; `dec` never goes below 0 and strictly decreases a positive state; `reset` gives the initial value |
| Counter.IncAddsOne | src/components/Counter.tsx:8-9 | `inc` returns the state plus one |
| Counter.DecFloorsAtZero | src/components/Counter.tsx:10-11 | for every integer state, `dec` is `max(0, state - 1)`: one less for a positive state, 0 otherwise |
| Counter.DecUndoesInc | src/components/Counter.tsx:8-11 | on a non-negative state, `dec` after `inc` returns the original state |
| Counter.ResetIdempotent | src/components/Counter.tsx:12-13 | `reset` gives 0 from any state, so resetting twice equals resetting once |
| Counter.Run | src/components/Counter.tsx:6-25 | dispatches the widget's actions in order through the reducer; from a non-negative start (the widget mounts at 0), the counter is non-negative after any action sequence |
| Counter.BoundedByIncrements | src/components/Counter.tsx:6-17 | the counter never exceeds its start plus the number of increments |
| Counter.ResetForgetsHistory | src/components/Counter.tsx:12-13 | after a `reset`, the value depends only on the actions that follow it |
| LoginScreen.IsWhitespace | src/screens/LoginScreen.tsx:6 | the regex's `\s` class; no whitespace character is `@` or `.`, and each is a single UTF-16 code unit |
| LoginScreen.MatchesEmailRe | src/screens/LoginScreen.tsx:6 | `EMAIL_RE.test`: some split into local `@` domain `.` tld with non-empty `[^\s@]` parts; any match has at least five characters and starts with a `[^\s@]` character |
| LoginScreen.MatchesEmailReIffShape | src/screens/LoginScreen.tsx:6 | the pattern accepts a string iff it has no whitespace and a single `@`, not first, and a `.` after it that is neither right after the `@` nor last (both directions) |
| LoginScreen.AcceptedEmailHasOneAt | src/screens/LoginScreen.tsx:6 | every accepted email has no whitespace and exactly one `@` |
| LoginScreen.AcceptedEmailExamples | src/screens/LoginScreen.tsx:6 | `a@b.com` and `j.d@mail.co.uk` are accepted; the domain may hold dots |
| LoginScreen.RejectedEmailExamples | src/screens/LoginScreen.tsx:6 | a missing `.`, an empty domain, a space or a second `@` is refused |
| LoginScreen.Utf16Length | src/screens/LoginScreen.tsx:20 | `password.length` lies between the number of characters and twice that |
| LoginScreen.Utf16LengthOfBmp | src/screens/LoginScreen.tsx:20 | for text inside the Basic Multilingual Plane, `length` is the character count |
| LoginScreen.PasswordLongEnough | src/screens/LoginScreen.tsx:20-27 | the check `password.length >= 6`; any password of at least six characters passes, and one of at most two characters fails |
| LoginScreen.PasswordBoundary | src/screens/LoginScreen.tsx:20-27 | for text inside the Basic Multilingual Plane, a six-character password is accepted and a five-character one is refused (a five-character password with a character outside that plane has length 6 and passes) |
| LoginScreen.ComputeValid | src/screens/LoginScreen.tsx:17-22 | `valid` is true iff the email matches the pattern and the password length is at least 6 |
| LoginScreen.OnSubmit | src/screens/LoginScreen.tsx:24-33 | the email error is empty iff the pattern matches, else "Please enter a valid email."; the password error is empty iff the length is at least 6, else "Password must be at least 6 characters."; a `loginSucceeded` carrying the entered email unchanged is dispatched iff both are empty, and nothing otherwise |

## Left out

- The counter reducer's `default` branch (`Counter.tsx:14-15`) cannot be reached. The action type is a closed datatype here, and the TypeScript union is closed too.
- The remount of the home screen when `sessionKey` changes (`HomeScreen.tsx:62`) is React reconciliation, not code in this repository. The model proves the key changes exactly on logout and that a `reset` forgets earlier counter history. It does not model the teardown of the widget itself.
- The home screen's HTTP fetch of the user list, its loading, error and refresh flags, and list rendering are network I/O and UI.
- The navigator's choice of stack on `isAuthenticated` (`RootNavigator.tsx:26`) is a library call.
- The network-status hook (`useNetworkStatus.ts`) is a callback subscription to a foreign library.
- Redux store construction, subscriber notification, `useSelector` and `useDispatch` are framework code. `store.ts` is not part of this model.
- React's state setters (`setEmailErr`, `setPasswordErr`) are asynchronous. `OnSubmit` returns the values they are given.
- Layout, styling, button handlers and the platform-dependent keyboard behaviour are UI.
- JavaScript number limits: `sessionKey` and the counter are unbounded integers.
