/** The simulated session of `src/contexts/AuthContext.tsx`: the signed-in
    user, the loading flag, the `bookworm-user` entry of the browser's local
    storage and the route the app navigates to. No credential is checked:
    any non-empty email and password sign in as the user with id `123`. */
module Auth {
  import opened Outcomes

  datatype AuthUser = AuthUser(id: string, email: string, name: string)

  const MOCK_ID: string := "123"
  const DASHBOARD_ROUTE: string := "/dashboard"
  const LOGIN_ROUTE: string := "/login"

  /** `email.split('@')[0]`: the text before the first `@`, or all of it. */
  function EmailPrefix(s: string): (r: string)
    ensures '@' !in r
    ensures |r| <= |s| && r == s[..|r|]
    ensures |r| < |s| ==> s[|r|] == '@'
    decreases |s|
  {
    if s == [] || s[0] == '@' then [] else [s[0]] + EmailPrefix(s[1..])
  }

  /** The name part of an address is what sign-in takes as the user's name. */
  lemma {:induction false} EmailPrefixOfAddress(local: string, domain: string)
    requires '@' !in local
    ensures EmailPrefix(local + "@" + domain) == local
    decreases |local|
  {
    var s := local + "@" + domain;
    if local != [] {
      assert s[1..] == local[1..] + "@" + domain;
      EmailPrefixOfAddress(local[1..], domain);
    }
  }

  /** The signed-in user of `signIn`. */
  function SignedInAs(email: string): (u: AuthUser)
    ensures u.id == MOCK_ID && u.email == email
    ensures '@' !in u.name && |u.name| <= |email| && u.name == email[..|u.name|]
  {
    AuthUser(MOCK_ID, email, EmailPrefix(email))
  }

  class Session {
    var user: Option<AuthUser>
    var loading: bool
    /** The `bookworm-user` entry of local storage. */
    var stored: Option<AuthUser>
    var route: string

    /** The user in memory is the one in local storage. */
    predicate Synced()
      reads this
    {
      user == stored
    }

    /** The provider's first render: no user yet, loading. */
    constructor(stored0: Option<AuthUser>, route0: string)
      ensures user == None && loading && stored == stored0 && route == route0
    {
      user, loading, stored, route := None, true, stored0, route0;
    }

    /** The mount effect, which runs before anyone signs in: a stored user
        is signed back in; loading ends. */
    method Restore()
      requires user == None
      modifies this
      ensures Synced()
      ensures user == old(stored) && stored == old(stored)
      ensures !loading && route == old(route)
    {
      if stored.Some? {
        user := stored;
      }
      loading := false;
    }

    /** `signIn`: a non-empty email and password sign in, persist the user
        and go to the dashboard; anything else changes nothing but loading. */
    method SignIn(email: string, password: string)
      modifies this
      ensures !loading
      ensures email != "" && password != "" ==>
        Synced() && user == Some(SignedInAs(email)) && route == DASHBOARD_ROUTE
      ensures !(email != "" && password != "") ==>
        user == old(user) && stored == old(stored) && route == old(route)
    {
      loading := true;
      if email != "" && password != "" {
        var u := SignedInAs(email);
        user := Some(u);
        stored := Some(u);
        route := DASHBOARD_ROUTE;
      }
      loading := false;
    }

    /** `signUp`: a non-empty email, password and name sign in under that name. */
    method SignUp(email: string, password: string, name: string)
      modifies this
      ensures !loading
      ensures email != "" && password != "" && name != "" ==>
        Synced() && user == Some(AuthUser(MOCK_ID, email, name)) && route == DASHBOARD_ROUTE
      ensures !(email != "" && password != "" && name != "") ==>
        user == old(user) && stored == old(stored) && route == old(route)
    {
      loading := true;
      if email != "" && password != "" && name != "" {
        var u := AuthUser(MOCK_ID, email, name);
        user := Some(u);
        stored := Some(u);
        route := DASHBOARD_ROUTE;
      }
      loading := false;
    }

    /** `signOut`: forget the user in memory and in storage, go to the login page. */
    method SignOut()
      modifies this
      ensures Synced() && user == None && route == LOGIN_ROUTE && loading == old(loading)
    {
      user := None;
      stored := None;
      route := LOGIN_ROUTE;
    }
  }
}
