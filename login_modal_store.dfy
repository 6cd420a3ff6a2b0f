/**
 * The persisted login-modal store: whether the modal is open, the image shown in it, and a
 * counter of login attempts with the time of the last one. Each action merges only the
 * fields it names into the state, so the modal fields and the attempt fields never disturb
 * each other. `Date.now()` is the `now` parameter.
 */
module LoginModalStore {
  import opened Wrappers

  /** What `partialize` writes to local storage. */
  datatype PersistedAttempts = PersistedAttempts(lastLoginAttempt: Option<int>, loginAttempts: int)

  /** The part of the state that drives the modal. */
  datatype ModalView = ModalView(isOpen: bool, imageUrl: Option<string>)

  class LoginModalStore {
    var isLoginModalOpen: bool
    var currentImageUrl: Option<string>
    var lastLoginAttempt: Option<int>
    var loginAttempts: int

    /** The attempt counter never goes below zero. */
    ghost predicate Valid()
      reads this
    {
      loginAttempts >= 0
    }

    /** The `partialize` projection: the attempt fields only. */
    function Partialize(): (p: PersistedAttempts)
      reads this
      ensures p.lastLoginAttempt == lastLoginAttempt && p.loginAttempts == loginAttempts
    {
      PersistedAttempts(lastLoginAttempt, loginAttempts)
    }

    function Modal(): (m: ModalView)
      reads this
      ensures m.isOpen == isLoginModalOpen && m.imageUrl == currentImageUrl
    {
      ModalView(isLoginModalOpen, currentImageUrl)
    }

    /** The initial state: closed, no image, no attempt recorded. */
    constructor ()
      ensures Valid()
      ensures Modal() == ModalView(false, None)
      ensures Partialize() == PersistedAttempts(None, 0)
    {
      isLoginModalOpen := false;
      currentImageUrl := None;
      lastLoginAttempt := None;
      loginAttempts := 0;
    }

    /** `openLoginModal(imageUrl?)`: an absent or empty URL becomes `null`. */
    method OpenLoginModal(imageUrl: Option<string>)
      requires Valid()
      modifies this
      ensures Valid()
      ensures isLoginModalOpen
      ensures currentImageUrl == if imageUrl.Some? && imageUrl.value != "" then imageUrl else None
      ensures Partialize() == old(Partialize())
    {
      isLoginModalOpen := true;
      currentImageUrl := if imageUrl.Some? && imageUrl.value != "" then imageUrl else None;
    }

    /** `closeLoginModal()` */
    method CloseLoginModal()
      requires Valid()
      modifies this
      ensures Valid()
      ensures Modal() == ModalView(false, None)
      ensures Partialize() == old(Partialize())
    {
      isLoginModalOpen := false;
      currentImageUrl := None;
    }

    /** `recordLoginAttempt()` at time `now`. */
    method RecordLoginAttempt(now: int)
      requires Valid()
      modifies this
      ensures Valid()
      ensures loginAttempts == old(loginAttempts) + 1
      ensures lastLoginAttempt == Some(now)
      ensures Modal() == old(Modal())
    {
      lastLoginAttempt := Some(now);
      loginAttempts := loginAttempts + 1;
    }

    /** `resetLoginAttempts()` */
    method ResetLoginAttempts()
      requires Valid()
      modifies this
      ensures Valid()
      ensures Partialize() == PersistedAttempts(None, 0)
      ensures Modal() == old(Modal())
    {
      lastLoginAttempt := None;
      loginAttempts := 0;
    }
  }

  /** A client: attempts between two resets are counted one by one, whatever the modal does. */
  method AttemptsTally(store: LoginModalStore, t1: int, t2: int, url: Option<string>)
    requires store.Valid()
    modifies store
    ensures store.Valid()
    ensures store.Partialize() == PersistedAttempts(Some(t2), 2)
    ensures !store.isLoginModalOpen
  {
    store.ResetLoginAttempts();
    store.OpenLoginModal(url);
    store.RecordLoginAttempt(t1);
    store.CloseLoginModal();
    store.RecordLoginAttempt(t2);
  }
}
