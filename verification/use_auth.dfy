/** The session of project/src/hooks/useAuth.ts as a state machine. The browser's
    `localStorage` entry for the user is an abstract slot holding a user or nothing. */
module Auth {
  import opened Wrappers
  import opened Text
  import opened Types

  const AvatarUrl: string := "https://images.pexels.com/photos/1040880/pexels-photo-1040880.jpeg?auto=compress&cs=tinysrgb&w=100"

  datatype AuthState = AuthState(user: Option<User>, isLoading: bool, isAuthenticated: bool)

  /** What the hook exposes, and what it has written to the persisted slot. */
  datatype Session = Session(state: AuthState, slot: Option<User>)

  /** The authentication flag says exactly whether there is a user. */
  predicate Consistent(a: AuthState) {
    a.isAuthenticated <==> a.user.Some?
  }

  /** The persisted slot holds exactly the session's user. */
  predicate Persisted(s: Session) {
    s.slot == s.state.user
  }

  /** The state before the stored session has been read: loading, nobody signed in. */
  function Initial(slot: Option<User>): (s: Session)
    ensures s.state.user.None? && s.state.isLoading && !s.state.isAuthenticated
    ensures s.slot == slot
  {
    Session(AuthState(None, true, false), slot)
  }

  /** The mount effect: a saved user signs in; otherwise only loading ends. */
  function Restore(s: Session): (r: Session)
    ensures r.slot == s.slot && !r.state.isLoading
    ensures s.slot.Some? ==> r.state.user == s.slot && r.state.isAuthenticated
    ensures s.slot.None? ==> r.state.user == s.state.user && r.state.isAuthenticated == s.state.isAuthenticated
  {
    match s.slot
    case Some(u) => Session(AuthState(Some(u), false, true), s.slot)
    case None => s.(state := s.state.(isLoading := false))
  }

  /** `email.split('@')[0]`: the text before the first '@', or all of it when there is none. */
  function LocalPart(email: string): (r: string)
    ensures '@' !in r
    ensures |r| <= |email| && email[..|r|] == r
    ensures |r| < |email| ==> email[|r|] == '@'
  {
    var parts := Split(email, '@');
    JoinFirstPiece(parts, '@');
    parts[0]
  }

  /** A join starts with its first piece, followed by the separator when more pieces follow. */
  lemma JoinFirstPiece(parts: seq<string>, sep: char)
    requires |parts| >= 1
    ensures |parts[0]| <= |Join(parts, sep)| && Join(parts, sep)[..|parts[0]|] == parts[0]
    ensures |parts| >= 2 ==> |parts[0]| < |Join(parts, sep)| && Join(parts, sep)[|parts[0]|] == sep
    ensures |parts| == 1 ==> Join(parts, sep) == parts[0]
  {
    if |parts| >= 2 {
      assert Join(parts, sep) == parts[0] + [sep] + Join(parts[1..], sep);
    }
  }

  /** The user `login` fabricates: identity from the email's local part, fixed profile. */
  function LoginUser(email: string, now: Timestamp): (u: User)
    ensures u.id == "1" && u.email == email && u.joinedAt == now
    ensures u.displayName == LocalPart(email) && u.username == Lower(LocalPart(email))
    ensures u.followersCount == 1247 && u.followingCount == 89 && u.articlesCount == 23
  {
    var local := LocalPart(email);
    User("1", Lower(local), email, local, Some(AvatarUrl), Some("Passionate writer and storyteller"),
         Some("San Francisco, CA"), Some("https://example.com"), now, 1247, 89, 23)
  }

  /** `login`: the password is not checked, so it always signs in, and persists the user. */
  function Login(s: Session, email: string, password: string, now: Timestamp): (r: Session)
    ensures r.state.user == Some(LoginUser(email, now)) && r.state.isAuthenticated && !r.state.isLoading
    ensures Persisted(r)
  {
    var u := LoginUser(email, now);
    Session(AuthState(Some(u), false, true), Some(u))
  }

  /** The user `signup` creates: lowered username, given name and email, zero counters. */
  function SignupUser(displayName: string, username: string, email: string, id: string, now: Timestamp): (u: User)
    ensures u.id == id && u.username == Lower(username) && u.displayName == displayName && u.email == email
    ensures u.followersCount == 0 && u.followingCount == 0 && u.articlesCount == 0
    ensures u.joinedAt == now
  {
    User(id, Lower(username), email, displayName, Some(AvatarUrl), Some("New to Inkwell"), None, None, now, 0, 0, 0)
  }

  /** `signup`: signs the new user in and persists it. */
  function Signup(s: Session, displayName: string, username: string, email: string, password: string, id: string, now: Timestamp): (r: Session)
    ensures r.state.user == Some(SignupUser(displayName, username, email, id, now)) && r.state.isAuthenticated && !r.state.isLoading
    ensures Persisted(r)
  {
    var u := SignupUser(displayName, username, email, id, now);
    Session(AuthState(Some(u), false, true), Some(u))
  }

  /** `logout`: from any state, signed out, not loading, slot cleared. */
  function Logout(s: Session): (r: Session)
    ensures r.state.user.None? && !r.state.isAuthenticated && !r.state.isLoading
    ensures r.slot.None?
  {
    Session(AuthState(None, false, false), None)
  }

  /** The events the hook reacts to. */
  datatype Event =
    | RestoreEvent
    | LoginEvent(email: string, password: string, now: Timestamp)
    | SignupEvent(displayName: string, username: string, email: string, password: string, id: string, now: Timestamp)
    | LogoutEvent

  /** One event of the hook. Each ends loading, keeps "authenticated iff there is a user",
      and keeps the slot in agreement with the user once they agree. */
  function Step(s: Session, e: Event): (r: Session)
    ensures !r.state.isLoading
    ensures Consistent(s.state) ==> Consistent(r.state)
    ensures Persisted(s) ==> Persisted(r)
    ensures !e.RestoreEvent? ==> Persisted(r)
  {
    match e
    case RestoreEvent => Restore(s)
    case LoginEvent(email, password, now) => Login(s, email, password, now)
    case SignupEvent(displayName, username, email, password, id, now) => Signup(s, displayName, username, email, password, id, now)
    case LogoutEvent => Logout(s)
  }

  function Run(s: Session, events: seq<Event>): Session
    decreases |events|
  {
    if |events| == 0 then s else Run(Step(s, events[0]), events[1..])
  }

  /** Every state the hook can reach says it is authenticated exactly when it has a user. */
  lemma {:induction false} RunConsistent(slot: Option<User>, events: seq<Event>)
    ensures Consistent(Run(Initial(slot), events).state)
  {
    RunKeepsConsistent(Initial(slot), events);
  }

  lemma {:induction false} RunKeepsConsistent(s: Session, events: seq<Event>)
    requires Consistent(s.state)
    ensures Consistent(Run(s, events).state)
    decreases |events|
  {
    if |events| > 0 {
      RunKeepsConsistent(Step(s, events[0]), events[1..]);
    }
  }

  /** Once the saved session has been read, the slot and the session's user agree
      after every further event. */
  lemma {:induction false} RunAfterRestorePersisted(slot: Option<User>, events: seq<Event>)
    ensures Persisted(Run(Restore(Initial(slot)), events))
  {
    RunKeepsPersisted(Restore(Initial(slot)), events);
  }

  lemma {:induction false} RunKeepsPersisted(s: Session, events: seq<Event>)
    requires Persisted(s)
    ensures Persisted(Run(s, events))
    decreases |events|
  {
    if |events| > 0 {
      RunKeepsPersisted(Step(s, events[0]), events[1..]);
    }
  }
}
