/**
 * The persisted user store: the signed-in user, a loading flag, and a login counter with
 * the time of the last login. Only the counter and the time are persisted; the user object
 * never is. `Date.now()` is the `now` parameter.
 */
module UserStore {
  import opened Wrappers

  /** The hosted provider's user object, reduced to what the site reads. */
  datatype User = User(id: string, email: Option<string>)

  /** What `partialize` writes to local storage. */
  datatype PersistedLogins = PersistedLogins(lastLoginTime: Option<int>, loginCount: int)

  class UserStore {
    var user: Option<User>
    var isLoading: bool
    var lastLoginTime: Option<int>
    var loginCount: int

    /** The login counter never goes below zero. */
    ghost predicate Valid()
      reads this
    {
      loginCount >= 0
    }

    /** The `partialize` projection: the counter and the time, not the user. */
    function Partialize(): (p: PersistedLogins)
      reads this
      ensures p.lastLoginTime == lastLoginTime && p.loginCount == loginCount
    {
      PersistedLogins(lastLoginTime, loginCount)
    }

    /** The initial state. */
    constructor ()
      ensures Valid()
      ensures user == None && !isLoading
      ensures Partialize() == PersistedLogins(None, 0)
    {
      user := None;
      isLoading := false;
      lastLoginTime := None;
      loginCount := 0;
    }

    /** `setUser(u)`: changes `user` only. */
    method SetUser(u: Option<User>)
      requires Valid()
      modifies this
      ensures Valid()
      ensures user == u
      ensures isLoading == old(isLoading) && Partialize() == old(Partialize())
    {
      user := u;
    }

    /** `setLoading(b)`: changes `isLoading` only. */
    method SetLoading(b: bool)
      requires Valid()
      modifies this
      ensures Valid()
      ensures isLoading == b
      ensures user == old(user) && Partialize() == old(Partialize())
    {
      isLoading := b;
    }

    /** `recordLogin()` at time `now`. */
    method RecordLogin(now: int)
      requires Valid()
      modifies this
      ensures Valid()
      ensures loginCount == old(loginCount) + 1 && lastLoginTime == Some(now)
      ensures user == old(user) && isLoading == old(isLoading)
    {
      lastLoginTime := Some(now);
      loginCount := loginCount + 1;
    }

    /** `clearUser()`: forgets the user and the counters, keeps the loading flag. */
    method ClearUser()
      requires Valid()
      modifies this
      ensures Valid()
      ensures user == None && Partialize() == PersistedLogins(None, 0)
      ensures isLoading == old(isLoading)
    {
      user := None;
      lastLoginTime := None;
      loginCount := 0;
    }
  }
}
