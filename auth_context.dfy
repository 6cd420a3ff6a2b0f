/**
 * The authentication provider: mirrors the hosted provider's session into the user store
 * and keeps its own loading flag. Each handler is one atomic step; what the SDK returns is a
 * parameter, and `Date.now()` is the `now` parameter.
 */
module AuthContext {
  import opened Wrappers
  import opened UserStore

  /** A session as the SDK returns it; its user may be missing. */
  datatype Session = Session(user: Option<User>)

  /** The outcome of `supabase.auth.getSession()`: a result with an optional error, or a rejection. */
  datatype GetSessionOutcome =
    | Returned(session: Option<Session>, error: Option<string>)
    | Rejected(reason: string)

  /** The outcome of `supabase.auth.signOut()`. */
  datatype SignOutOutcome = SignedOut | ReturnedError(error: string) | SignOutRejected(reason: string)

  /** The user of a session, if the session and its user are both present (`session?.user`). */
  function SessionUser(session: Option<Session>): (r: Option<User>)
    ensures r.Some? <==> session.Some? && session.value.user.Some?
    ensures r.Some? ==> r == session.value.user
  {
    if session.Some? then session.value.user else None
  }

  /** The value the provider hands to `useAuth` callers. */
  datatype AuthContextValue = AuthContextValue(user: Option<User>, isLoading: bool)

  class AuthProvider {
    const store: UserStore
    var isLoading: bool

    ghost predicate Valid()
      reads this, store
    {
      store.Valid()
    }

    /** The value in `AuthContext.Provider`: the store's user and the provider's own flag. */
    function Value(): (v: AuthContextValue)
      reads this, store
      ensures v.user == store.user && v.isLoading == isLoading
    {
      AuthContextValue(store.user, isLoading)
    }

    /** Mounting the provider: `useState(true)`, the store untouched. */
    constructor (store: UserStore)
      requires store.Valid()
      ensures Valid() && this.store == store && isLoading
    {
      this.store := store;
      isLoading := true;
    }

    /**
     * `getInitialSession`: a session with a user sets it and records one login; an error, a
     * session without a user, or a rejection changes neither. Both flags end false.
     */
    method GetInitialSession(outcome: GetSessionOutcome, now: int)
      requires Valid()
      modifies this, store
      ensures Valid()
      ensures !isLoading && !store.isLoading
      ensures outcome.Returned? && outcome.error.None? && SessionUser(outcome.session).Some? ==>
        && store.user == SessionUser(outcome.session)
        && store.loginCount == old(store.loginCount) + 1
        && store.lastLoginTime == Some(now)
      ensures !(outcome.Returned? && outcome.error.None? && SessionUser(outcome.session).Some?) ==>
        store.user == old(store.user) && store.Partialize() == old(store.Partialize())
    {
      store.SetLoading(true);
      if outcome.Returned? {
        if outcome.error.Some? {
          // logged only
        } else if SessionUser(outcome.session).Some? {
          store.SetUser(SessionUser(outcome.session));
          store.RecordLogin(now);
        }
      }
      store.SetLoading(false);
      isLoading := false;
    }

    /**
     * The `onAuthStateChange` handler: `SIGNED_IN` with a user sets it and records one login;
     * `SIGNED_OUT` clears the user but keeps the counters; any other event leaves the user.
     * Both flags end false.
     */
    method OnAuthStateChange(event: string, session: Option<Session>, now: int)
      requires Valid()
      modifies this, store
      ensures Valid()
      ensures !isLoading && !store.isLoading
      ensures event == "SIGNED_IN" && SessionUser(session).Some? ==>
        && store.user == SessionUser(session)
        && store.loginCount == old(store.loginCount) + 1
        && store.lastLoginTime == Some(now)
      ensures event == "SIGNED_OUT" ==>
        store.user == None && store.Partialize() == old(store.Partialize())
      ensures event != "SIGNED_IN" && event != "SIGNED_OUT" ==>
        store.user == old(store.user) && store.Partialize() == old(store.Partialize())
      ensures event == "SIGNED_IN" && SessionUser(session).None? ==>
        store.user == old(store.user) && store.Partialize() == old(store.Partialize())
    {
      if event == "SIGNED_IN" && SessionUser(session).Some? {
        store.SetUser(SessionUser(session));
        store.RecordLogin(now);
      } else if event == "SIGNED_OUT" {
        store.SetUser(None);
      }
      store.SetLoading(false);
      isLoading := false;
    }

    /** `signOut()`: the local state is cleared whatever the SDK reports. */
    method SignOut(outcome: SignOutOutcome)
      requires Valid()
      modifies store
      ensures Valid()
      ensures store.user == None
      ensures store.Partialize() == PersistedLogins(None, 0)
      ensures store.isLoading == old(store.isLoading) && isLoading == old(isLoading)
    {
      match outcome
      case SignedOut =>
        store.SetUser(None);
        store.ClearUser();
      case ReturnedError(_) =>
        // thrown, then caught below
        store.SetUser(None);
        store.ClearUser();
      case SignOutRejected(_) =>
        store.SetUser(None);
        store.ClearUser();
    }
  }

  const UseAuthOutsideProvider: string := "useAuth must be used within an AuthProvider"

  /** `useAuth()`: the provider's value, or the error thrown outside any provider. */
  function UseAuth(context: Option<AuthContextValue>): (r: Result<AuthContextValue, string>)
    ensures context.None? <==> r.Failure?
    ensures context.None? ==> r.error == UseAuthOutsideProvider
    ensures context.Some? ==> r.value == context.value
  {
    match context
    case None => Failure(UseAuthOutsideProvider)
    case Some(v) => Success(v)
  }

  /**
   * A client: after the initial session and a sign-in, a sign-out leaves no user, zero
   * logins and the provider no longer loading.
   */
  method SignInThenOut(store: UserStore, initial: GetSessionOutcome, u: User, t0: int, t1: int)
      returns (provider: AuthProvider)
    requires store.Valid()
    modifies store
    ensures provider.store == store && store.Valid()
    ensures provider.Value() == AuthContextValue(None, false)
    ensures store.Partialize() == PersistedLogins(None, 0)
  {
    provider := new AuthProvider(store);
    provider.GetInitialSession(initial, t0);
    provider.OnAuthStateChange("SIGNED_IN", Some(Session(Some(u))), t1);
    assert store.user == Some(u);
    provider.SignOut(SignedOut);
  }
}
