/**
 * The user registry of the session service: a shared map from username to
 * user, and a per-client session that may hold a copy of one user.  Each
 * handler's HTTP reply becomes a `Response` value.
 */
module Sessions {
  import Wrappers
  import Maps

  datatype User = User(username: string, lastLogin: nat, email: string)

  datatype Status = Ok | Conflict | Unauthorized | NotFound

  /** The JSON body of a reply. */
  datatype Body = Message(text: string) | OneUser(user: User) | Users(users: seq<User>)

  datatype Response = Response(status: Status, body: Body)

  /** Every stored user is filed under its own username. */
  predicate Consistent(users: map<string, User>)
  {
    forall name :: name in users ==> users[name].username == name
  }

  /** The registered users, shared by all clients. */
  class AppState {
    var users: map<string, User>

    /** No user is registered at start-up. */
    constructor ()
      ensures users == map[]
    {
      users := map[];
    }
  }

  /** One client's session: the user stored at login, if any. */
  class Session {
    var user: Wrappers.Option<User>

    constructor ()
      ensures user == Wrappers.None
    {
      user := Wrappers.None;
    }
  }

  /** Registers a user with `lastLogin == 0`; a taken username is a conflict
      and leaves the registry as it was. */
  method RegisterUser(data: AppState, username: string, email: string) returns (r: Response)
    modifies data
    ensures username in old(data.users) ==>
              r == Response(Conflict, Message("User already exists")) && data.users == old(data.users)
    ensures username !in old(data.users) ==>
              && r == Response(Ok, Message("User registered successfully"))
              && data.users == old(data.users)[username := User(username, 0, email)]
    ensures |data.users| == |old(data.users)| + (if username in old(data.users) then 0 else 1)
    ensures Consistent(old(data.users)) ==> Consistent(data.users)
  {
    if username in data.users {
      return Response(Conflict, Message("User already exists"));
    }
    data.users := data.users[username := User(username, 0, email)];
    r := Response(Ok, Message("User registered successfully"));
  }

  /** Logs a registered user in at time `now` (seconds since the epoch): only
      that user's `lastLogin` changes and the session receives the updated
      user.  An unknown username is unauthorized and changes nothing. */
  method Login(session: Session, data: AppState, username: string, now: nat) returns (r: Response)
    modifies session, data
    ensures username !in old(data.users) ==>
              && r == Response(Unauthorized, Message("User not found"))
              && data.users == old(data.users) && session.user == old(session.user)
    ensures username in old(data.users) ==>
              && r == Response(Ok, Message("Login successful"))
              && data.users == old(data.users)[username := old(data.users)[username].(lastLogin := now)]
              && session.user == Wrappers.Some(data.users[username])
    ensures Consistent(old(data.users)) ==> Consistent(data.users)
  {
    if username in data.users {
      var stored := data.users[username].(lastLogin := now);
      data.users := data.users[username := stored];
      session.user := Wrappers.Some(stored);
      r := Response(Ok, Message("Login successful"));
    } else {
      r := Response(Unauthorized, Message("User not found"));
    }
  }

  /** The user in the session, or a message saying nobody is logged in. */
  method GetSessionInfo(session: Session) returns (r: Response)
    ensures r.status == Ok
    ensures session.user.Some? ==> r.body == OneUser(session.user.value)
    ensures session.user.None? ==> r.body == Message("No user logged in")
  {
    match session.user {
      case Some(u) => r := Response(Ok, OneUser(u));
      case None => r := Response(Ok, Message("No user logged in"));
    }
  }

  /** Updates the session user's email when one is given.  The registry entry
      is overwritten with the session's copy only while the username is still
      registered; the session keeps the copy either way. */
  method UpdateUser(session: Session, data: AppState, email: Wrappers.Option<string>) returns (r: Response)
    modifies session, data
    ensures old(session.user).None? ==>
              && r == Response(Unauthorized, Message("No user logged in"))
              && data.users == old(data.users) && session.user == Wrappers.None
    ensures old(session.user).Some? ==>
              var u := old(session.user).value;
              var updated := if email.Some? then u.(email := email.value) else u;
              && r == Response(Ok, Message("User updated successfully"))
              && session.user == Wrappers.Some(updated)
              && data.users == (if u.username in old(data.users) then old(data.users)[u.username := updated]
                                else old(data.users))
    ensures Consistent(old(data.users)) ==> Consistent(data.users)
  {
    match session.user {
      case None =>
        r := Response(Unauthorized, Message("No user logged in"));
      case Some(u) =>
        var user := u;
        if email.Some? {
          user := user.(email := email.value);
        }
        if user.username in data.users {
          data.users := data.users[user.username := user];
        }
        session.user := Wrappers.Some(user);
        r := Response(Ok, Message("User updated successfully"));
    }
  }

  /** Clears the session; the registry is untouched. */
  method Logout(session: Session) returns (r: Response)
    modifies session
    ensures session.user == Wrappers.None
    ensures r == Response(Ok, Message("Logged out successfully"))
  {
    session.user := Wrappers.None;
    r := Response(Ok, Message("Logged out successfully"));
  }

  /** Removes exactly the named user; NotFound exactly when it was absent. */
  method DeleteUser(data: AppState, username: string) returns (r: Response)
    modifies data
    ensures data.users == old(data.users) - {username}
    ensures r.status == NotFound <==> username !in old(data.users)
    ensures r == (if username in old(data.users) then Response(Ok, Message("User deleted successfully"))
                  else Response(NotFound, Message("User not found")))
    ensures Consistent(old(data.users)) ==> Consistent(data.users)
  {
    if username in data.users {
      data.users := data.users - {username};
      r := Response(Ok, Message("User deleted successfully"));
    } else {
      r := Response(NotFound, Message("User not found"));
    }
  }

  /** Every registered user, one per username, in the map's own order. */
  method ListUsers(data: AppState) returns (r: Response, ghost names: seq<string>)
    ensures r.status == Ok && r.body.Users?
    ensures Maps.Enumerates(data.users, names)
    ensures |r.body.users| == |names| == |data.users|
    ensures forall i :: 0 <= i < |names| ==> r.body.users[i] == data.users[names[i]]
  {
    var all;
    all, names := Maps.CollectValues(data.users);
    r := Response(Ok, Users(all));
  }
}
