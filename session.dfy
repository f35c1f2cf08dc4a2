/**
  The session store: the browser's local storage as seen by `getUsers`,
  `getCurrentUser`, `setCurrentUser` and `logout` (auth.js:4-38).
 */
module Session {
  import opened Base

  /** The session record the server returns on login or registration. */
  datatype User = User(id: int, login: string, role: string)

  /**
    What local storage holds under a key, classified by what `JSON.parse`
    makes of it: a user record, the legacy registry object, the empty
    string (which is falsy and never parsed), or text that `JSON.parse`
    rejects (such as the "undefined" stored by `setCurrentUser(undefined)`).
   */
  datatype Entry =
    | UserRecord(user: User)
    | Registry(accounts: map<string, User>)
    | Blank
    | Unparseable

  /** The key of the session record. */
  const CurrentUserKey := "currentUser"

  /** The key of the legacy user registry. */
  const UsersKey := "users"

  /** The page every sign-in and every logout goes to. */
  const LandingPage := "index.html"

  /**
    What `setCurrentUser` leaves in storage for its argument: the user's
    JSON text, or, for `undefined`, the text "undefined" that no later
    `JSON.parse` accepts.
   */
  function StoredEntry(value: Option<User>): (e: Entry)
    ensures value.Some? <==> e.UserRecord?
    ensures value.Some? ==> e.user == value.value
  {
    match value
    case Some(u) => UserRecord(u)
    case None => Unparseable
  }

  /** The local storage of one browser origin, reduced to the entries the session code reads. */
  class SessionStore {
    var items: map<string, Entry>

    constructor (initial: map<string, Entry>)
      ensures items == initial
    {
      items := initial;
    }

    /**
      `getCurrentUser`: the stored user record, or no session when the entry
      is missing, empty or unparseable. It never fails.
     */
    function CurrentUser(): (r: Option<User>)
      reads this
      ensures r.Some? <==> CurrentUserKey in items && items[CurrentUserKey].UserRecord?
      ensures r.Some? ==> items[CurrentUserKey] == UserRecord(r.value)
    {
      if CurrentUserKey in items && items[CurrentUserKey].UserRecord? then
        Some(items[CurrentUserKey].user)
      else
        None
    }

    /**
      `getUsers`: the stored registry, or the empty mapping when the entry is
      missing, empty or unparseable. It never fails.
     */
    function Users(): (r: map<string, User>)
      reads this
      ensures UsersKey in items && items[UsersKey].Registry? ==> r == items[UsersKey].accounts
      ensures UsersKey !in items || items[UsersKey] in {Blank, Unparseable} ==> r == map[]
    {
      if UsersKey in items && items[UsersKey].Registry? then items[UsersKey].accounts else map[]
    }

    /**
      `setCurrentUser`: replaces the session entry (None stands for the
      `undefined` a reply without a user record passes in). Every other
      entry, the registry included, is left as it was.
     */
    method SetCurrentUser(value: Option<User>)
      modifies this
      ensures items == old(items)[CurrentUserKey := StoredEntry(value)]
      ensures CurrentUser() == value
      ensures Users() == old(Users())
    {
      items := items[CurrentUserKey := StoredEntry(value)];
    }

    /**
      `logout`: removes the session entry, whether or not there was one, and
      sends the browser to the landing page.
     */
    method Logout() returns (redirect: string)
      modifies this
      ensures items == old(items) - {CurrentUserKey}
      ensures CurrentUser() == None
      ensures Users() == old(Users())
      ensures redirect == LandingPage
    {
      items := items - {CurrentUserKey};
      redirect := LandingPage;
    }
  }
}
