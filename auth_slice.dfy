/**
 * The authentication slice of the global store (src/store/authSlice.ts).
 *
 * The state is the record {isAuthenticated, user, sessionKey}. Two actions
 * change it: `loginSucceeded(user)` and `logout`. `AuthState`, `Reduce` and
 * `Run` describe the slice on values; `AuthStore` is the store's single
 * mutable state object, whose methods update the three fields in place the
 * way the reducers mutate their draft.
 */
module AuthSlice {
  import opened Wrappers

  /** The identity carried by a successful login. */
  datatype User = User(email: string)

  datatype AuthState = AuthState(isAuthenticated: bool, user: Option<User>, sessionKey: nat)

  /** The two actions the slice reacts to. */
  datatype AuthAction = LoginSucceeded(payload: User) | Logout

  /** The state the store is created with: logged out, no user, no logouts counted yet. */
  function InitialState(): (s: AuthState)
    ensures Consistent(s) && !s.isAuthenticated && s.user.None?
    ensures s.sessionKey == LogoutCount([])
  {
    AuthState(false, None, 0)
  }

  /** A user is present exactly when the state is authenticated. */
  predicate Consistent(s: AuthState) {
    s.user.Some? <==> s.isAuthenticated
  }

  /** One reducer step: the state after dispatching `a` in state `s`. */
  function Reduce(s: AuthState, a: AuthAction): (r: AuthState)
    ensures Consistent(r)
    ensures a.LoginSucceeded? ==> r.isAuthenticated && r.user == Some(a.payload)
    ensures a.Logout? ==> !r.isAuthenticated && r.user.None?
    ensures r.sessionKey >= s.sessionKey
    ensures r.sessionKey != s.sessionKey <==> a.Logout?
  {
    match a
    case LoginSucceeded(u) => AuthState(true, Some(u), s.sessionKey)
    case Logout => AuthState(false, None, s.sessionKey + 1)
  }

  /** The state after dispatching `acts` in order, starting from `s`. */
  function Run(s: AuthState, acts: seq<AuthAction>): (r: AuthState)
    ensures Consistent(s) ==> Consistent(r)
    ensures r.sessionKey >= s.sessionKey
  {
    if |acts| == 0 then s else Reduce(Run(s, acts[..|acts| - 1]), acts[|acts| - 1])
  }

  /** How many `logout` actions `acts` holds. */
  function LogoutCount(acts: seq<AuthAction>): nat
  {
    if |acts| == 0 then 0
    else LogoutCount(acts[..|acts| - 1]) + (if acts[|acts| - 1].Logout? then 1 else 0)
  }

  /** The session key moves by exactly the number of logouts; logins never touch it. */
  lemma {:induction false} SessionKeyCountsLogouts(s: AuthState, acts: seq<AuthAction>)
    ensures Run(s, acts).sessionKey == s.sessionKey + LogoutCount(acts)
  {
    if |acts| > 0 {
      SessionKeyCountsLogouts(s, acts[..|acts| - 1]);
    }
  }

  lemma {:induction false} LogoutCountOfPrefix(acts: seq<AuthAction>, i: nat)
    requires i <= |acts|
    ensures LogoutCount(acts[..i]) <= LogoutCount(acts)
  {
    if i < |acts| {
      var init := acts[..|acts| - 1];
      assert acts[..i] == init[..i];
      LogoutCountOfPrefix(init, i);
    } else {
      assert acts[..i] == acts;
    }
  }

  /** The session key never decreases: every prefix of a run ends with a key no larger. */
  lemma SessionKeyNeverDecreases(s: AuthState, acts: seq<AuthAction>, i: nat)
    requires i <= |acts|
    ensures Run(s, acts[..i]).sessionKey <= Run(s, acts).sessionKey
  {
    SessionKeyCountsLogouts(s, acts[..i]);
    SessionKeyCountsLogouts(s, acts);
    LogoutCountOfPrefix(acts, i);
  }

  /**
   * Every state reachable from the initial state keeps the user present
   * exactly when authenticated, and its session key is the number of logouts.
   */
  lemma ReachableInvariants(acts: seq<AuthAction>)
    ensures Consistent(Run(InitialState(), acts))
    ensures Run(InitialState(), acts).sessionKey == LogoutCount(acts)
  {
    SessionKeyCountsLogouts(InitialState(), acts);
  }

  /**
   * From the initial state, the store is authenticated exactly when some login
   * happened and no logout came after it; the user present is the payload of
   * such a login, indeed of the last action dispatched.
   */
  lemma AuthenticatedIffLoginSinceLastLogout(acts: seq<AuthAction>)
    ensures Run(InitialState(), acts).isAuthenticated <==>
      exists i :: 0 <= i < |acts| && acts[i].LoginSucceeded? && NoLogoutAfter(acts, i)
    ensures Run(InitialState(), acts).user.Some? ==>
      exists i :: 0 <= i < |acts| && acts[i] == LoginSucceeded(Run(InitialState(), acts).user.value)
        && NoLogoutAfter(acts, i)
    ensures Run(InitialState(), acts).user.Some? ==>
      |acts| > 0 && acts[|acts| - 1] == LoginSucceeded(Run(InitialState(), acts).user.value)
  {
    var r := Run(InitialState(), acts);
    if |acts| > 0 {
      var last := |acts| - 1;
      if acts[last].LoginSucceeded? {
        assert NoLogoutAfter(acts, last);
      } else {
        forall i | 0 <= i < |acts| && acts[i].LoginSucceeded?
          ensures !NoLogoutAfter(acts, i)
        {
          assert i < last && acts[last].Logout?;
        }
      }
    }
  }

  /**
   * A login, a logout, a second login and two logouts: each step's state,
   * with a redundant logout still bumping the key.
   */
  lemma LoginLogoutScenario()
    ensures Run(InitialState(), [LoginSucceeded(User("a@b.com"))])
      == AuthState(true, Some(User("a@b.com")), 0)
    ensures Run(InitialState(), [LoginSucceeded(User("a@b.com")), Logout])
      == AuthState(false, None, 1)
    ensures Run(InitialState(), [LoginSucceeded(User("a@b.com")), Logout,
                               LoginSucceeded(User("c@d.com")), Logout, Logout])
      == AuthState(false, None, 3)
  {
    var a1 := [LoginSucceeded(User("a@b.com"))];
    var a2 := a1 + [Logout];
    var a3 := a2 + [LoginSucceeded(User("c@d.com"))];
    var a4 := a3 + [Logout];
    var a5 := a4 + [Logout];
    assert a1[..0] == [] && a2[..1] == a1 && a3[..2] == a2 && a4[..3] == a3 && a5[..4] == a4;
    assert Run(InitialState(), a2) == AuthState(false, None, 1);
    assert Run(InitialState(), a3) == AuthState(true, Some(User("c@d.com")), 1);
    assert Run(InitialState(), a4) == AuthState(false, None, 2);
    assert a5 == [LoginSucceeded(User("a@b.com")), Logout, LoginSucceeded(User("c@d.com")), Logout, Logout];
  }

  /** No `logout` appears after position `i`. */
  predicate NoLogoutAfter(acts: seq<AuthAction>, i: nat) {
    forall k :: i < k < |acts| ==> !acts[k].Logout?
  }

  /** The store's single state object; its methods are the slice's reducers. */
  class AuthStore {
    var isAuthenticated: bool
    var user: Option<User>
    var sessionKey: nat
    /** The actions dispatched so far, oldest first. */
    ghost var history: seq<AuthAction>

    function State(): AuthState
      reads this
    {
      AuthState(isAuthenticated, user, sessionKey)
    }

    /** The fields are what the dispatched actions produce from the initial state. */
    ghost predicate Valid()
      reads this
    {
      State() == Run(InitialState(), history)
    }

    /** The store starts logged out, with no user and session key 0. */
    constructor ()
      ensures Valid() && history == []
      ensures !isAuthenticated && user == None && sessionKey == 0
    {
      isAuthenticated := false;
      user := None;
      sessionKey := 0;
      history := [];
    }

    /** Authenticates as `payload`, replacing any current user; the session key stays. */
    method LoginSucceeded(payload: User)
      requires Valid()
      modifies this
      ensures Valid() && history == old(history) + [AuthAction.LoginSucceeded(payload)]
      ensures isAuthenticated && user == Some(payload) && sessionKey == old(sessionKey)
      ensures sessionKey == LogoutCount(history)
    {
      isAuthenticated := true;
      user := Some(payload);
      history := history + [AuthAction.LoginSucceeded(payload)];
      assert history[..|history| - 1] == old(history);
      ReachableInvariants(history);
    }

    /** Clears the user and authentication and bumps the session key, even when already logged out. */
    method Logout()
      requires Valid()
      modifies this
      ensures Valid() && history == old(history) + [AuthAction.Logout]
      ensures !isAuthenticated && user == None && sessionKey == old(sessionKey) + 1
      ensures sessionKey == LogoutCount(history)
    {
      isAuthenticated := false;
      user := None;
      sessionKey := sessionKey + 1;
      history := history + [AuthAction.Logout];
      assert history[..|history| - 1] == old(history);
      ReachableInvariants(history);
    }

    /** The slice reducer: routes an action to the matching case reducer. */
    method Dispatch(action: AuthAction)
      requires Valid()
      modifies this
      ensures Valid() && history == old(history) + [action]
      ensures State() == Reduce(old(State()), action)
      ensures user.Some? <==> isAuthenticated
      ensures sessionKey == LogoutCount(history)
    {
      match action
      case LoginSucceeded(u) => LoginSucceeded(u);
      case Logout => Logout();
    }
  }
}
