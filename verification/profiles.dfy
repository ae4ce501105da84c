/**
 The local profile store `ProfileManager`: profiles keyed by username,
 each holding the SHA-256 hex digest of its password. The digest function
 and the clock are parameters; saving to and loading from the profiles
 file are left out.
 */
module Profiles {
  import opened Basics

  /** One stored profile; `lastLogin` is `None` until the first successful login. */
  datatype Profile = Profile(
    username: string,
    displayName: string,
    passwordHash: string,
    createdAt: string,
    lastLogin: Option<string>)

  type Store = map<string, Profile>

  /** Every profile is stored under its own username. */
  predicate Valid(s: Store) {
    forall u :: u in s ==> s[u].username == u
  }

  /**
   `create_profile` at time `now`: an existing username is refused and
   nothing changes; otherwise one profile is added with the password's
   digest and no login yet.
   */
  function CreateProfile(s: Store, username: string, displayName: string, password: string,
                         hash: string -> string, now: string): (r: (Store, bool))
    requires Valid(s)
    ensures Valid(r.0)
    ensures r.1 <==> username !in s
    ensures !r.1 ==> r.0 == s
    ensures r.1 ==> username in r.0 && r.0 == s[username := r.0[username]]
    ensures r.1 ==> r.0[username] == Profile(username, displayName, hash(password), now, None)
  {
    if username in s then (s, false)
    else (s[username := Profile(username, displayName, hash(password), now, None)], true)
  }

  /**
   `authenticate` at time `now`: an unknown user is refused; a known user is
   accepted exactly when the stored digest equals the password's, and only
   then is that profile's last login set.
   */
  function Authenticate(s: Store, username: string, password: string, hash: string -> string, now: string)
    : (r: (Store, bool))
    requires Valid(s)
    ensures Valid(r.0)
    ensures r.1 <==> username in s && s[username].passwordHash == hash(password)
    ensures !r.1 ==> r.0 == s
    ensures r.1 ==> r.0 == s[username := s[username].(lastLogin := Some(now))]
  {
    if username !in s then (s, false)
    else if s[username].passwordHash == hash(password) then
      (s[username := s[username].(lastLogin := Some(now))], true)
    else (s, false)
  }

  /** `get_profile`: the stored profile, or `None`. */
  function GetProfile(s: Store, username: string): (p: Option<Profile>)
    requires Valid(s)
    ensures p.Some? <==> username in s
    ensures p.Some? ==> p.value.username == username && p.value == s[username]
  {
    if username in s then Some(s[username]) else None
  }

  /** `delete_profile`: reports whether the user existed, and removes that profile only. */
  function DeleteProfile(s: Store, username: string): (r: (Store, bool))
    requires Valid(s)
    ensures Valid(r.0)
    ensures r.1 <==> username in s
    ensures username !in r.0 && r.0.Keys == s.Keys - {username}
    ensures forall u :: u in r.0 ==> r.0[u] == s[u]
  {
    if username in s then (s - {username}, true) else (s, false)
  }

  /** `list_usernames`, as a set. */
  function Usernames(s: Store): (names: set<string>)
    requires Valid(s)
    ensures forall u :: u in names <==> GetProfile(s, u).Some?
  {
    s.Keys
  }

  /** A profile just created accepts its password. */
  lemma CreateThenAuthenticate(s: Store, username: string, displayName: string, password: string,
                               hash: string -> string, created: string, now: string)
    requires Valid(s) && username !in s
    ensures var s' := CreateProfile(s, username, displayName, password, hash, created).0;
            Authenticate(s', username, password, hash, now).1
  {
  }

  /** A password with a different digest is refused, and the store is left as it was. */
  lemma OtherPasswordRefused(s: Store, username: string, displayName: string, password: string, guess: string,
                             hash: string -> string, created: string, now: string)
    requires Valid(s) && username !in s && hash(guess) != hash(password)
    ensures var s' := CreateProfile(s, username, displayName, password, hash, created).0;
            !Authenticate(s', username, guess, hash, now).1 && Authenticate(s', username, guess, hash, now).0 == s'
  {
  }

  /** After deletion the user can no longer log in, and the username can be created again. */
  lemma DeleteThenRecreate(s: Store, username: string, displayName: string, password: string,
                           hash: string -> string, now: string)
    requires Valid(s)
    ensures var s' := DeleteProfile(s, username).0;
            && !Authenticate(s', username, password, hash, now).1
            && CreateProfile(s', username, displayName, password, hash, now).1
  {
  }

  /** Logging in changes no stored digest, so a successful login can be repeated. */
  lemma LoginRepeats(s: Store, username: string, password: string, hash: string -> string, now: string, later: string)
    requires Valid(s) && Authenticate(s, username, password, hash, now).1
    ensures Authenticate(Authenticate(s, username, password, hash, now).0, username, password, hash, later).1
  {
  }
}
