/** The credential checks of `login` and `create_user`: a bounded number of
    login attempts against the stored username-to-password map, and the
    acceptance rules for a new username and password. */
module Auth {
  import opened Wrappers
  import opened Text

  /** Failed login attempts allowed before access is denied. */
  const MaxAttempts: nat := 3

  /** One round of the login prompt: the username as typed (before it is
      stripped) and the password typed for it. The password is only looked
      at when the stripped username is a known one, as in the program, which
      asks for the password only then. */
  datatype Attempt = Attempt(username: string, password: string)

  /** An attempt logs the user in exactly when its stripped username is
      non-empty, is a registered user and the password matches. */
  predicate Accepts(users: map<string, string>, a: Attempt)
  {
    var name := Strip(a.username);
    name != "" && name in users && users[name] == a.password
  }

  /** What the login loop returns when `failures` attempts have already
      failed and `inputs` is what the user will still type. Running out of
      input ends the session without a user. */
  function LoginFrom(users: map<string, string>, inputs: seq<Attempt>, failures: nat): (r: Option<string>)
    ensures r.Some? ==> r.value != "" && r.value in users
    decreases |inputs|
  {
    if failures >= MaxAttempts || inputs == [] then None
    else if Accepts(users, inputs[0]) then Some(Strip(inputs[0].username))
    else LoginFrom(users, inputs[1..], failures + 1)
  }

  /** The login loop: every empty username, unknown username or wrong
      password counts one failed attempt; after `MaxAttempts` of them the
      user is refused. */
  method Login(users: map<string, string>, inputs: seq<Attempt>) returns (r: Option<string>)
    ensures r == LoginFrom(users, inputs, 0)
    ensures r.Some? ==> r.value in users
  {
    var attempts: nat := 0;
    var i := 0;
    while attempts < MaxAttempts && i < |inputs|
      invariant i == attempts <= MaxAttempts && i <= |inputs|
      invariant LoginFrom(users, inputs[i..], attempts) == LoginFrom(users, inputs, 0)
    {
      var name := Strip(inputs[i].username);
      assert inputs[i..][1..] == inputs[i + 1..];
      if name == "" {
        attempts := attempts + 1;
      } else if name !in users {
        attempts := attempts + 1;
      } else if users[name] != inputs[i].password {
        attempts := attempts + 1;
        var remaining: int := MaxAttempts - attempts;
        if remaining <= 0 {
          return None;
        }
      } else {
        return Some(name);
      }
      i := i + 1;
    }
    return None;
  }

  /** Attempt `i` of `inputs` is the first one accepted, and it comes while
      attempts remain (`failures` of them having been used before). */
  predicate FirstAcceptedAt(users: map<string, string>, inputs: seq<Attempt>, failures: nat, i: nat)
  {
    && i < |inputs| && failures + i < MaxAttempts
    && Accepts(users, inputs[i])
    && forall j :: 0 <= j < i ==> !Accepts(users, inputs[j])
  }

  /** Login returns the username of the first accepted attempt, provided it
      comes before the attempts run out. */
  lemma {:induction false} LoginFindsFirstAccepted(users: map<string, string>, inputs: seq<Attempt>, failures: nat, i: nat)
    requires FirstAcceptedAt(users, inputs, failures, i)
    ensures LoginFrom(users, inputs, failures) == Some(Strip(inputs[i].username))
  {
    if i > 0 {
      assert !Accepts(users, inputs[0]);
      forall j | 0 <= j < i - 1 ensures !Accepts(users, inputs[1..][j]) {
        assert inputs[1..][j] == inputs[j + 1];
      }
      LoginFindsFirstAccepted(users, inputs[1..], failures + 1, i - 1);
    }
  }

  /** Conversely, a username is returned only for the first accepted
      attempt within the allowed ones: its stripped username is registered
      and the typed password is the stored one. */
  lemma {:induction false} LoginOnlyFirstAccepted(users: map<string, string>, inputs: seq<Attempt>, failures: nat)
    requires LoginFrom(users, inputs, failures).Some?
    ensures exists i: nat ::
      && FirstAcceptedAt(users, inputs, failures, i)
      && LoginFrom(users, inputs, failures).value == Strip(inputs[i].username)
  {
    if Accepts(users, inputs[0]) {
      assert FirstAcceptedAt(users, inputs, failures, 0);
    } else {
      var rest := inputs[1..];
      LoginOnlyFirstAccepted(users, rest, failures + 1);
      var i: nat :| FirstAcceptedAt(users, rest, failures + 1, i)
        && LoginFrom(users, rest, failures + 1).value == Strip(rest[i].username);
      assert rest[i] == inputs[i + 1];
      forall j | 0 <= j < i + 1 ensures !Accepts(users, inputs[j]) {
        if j > 0 { assert inputs[j] == rest[j - 1]; }
      }
      assert FirstAcceptedAt(users, inputs, failures, i + 1);
    }
  }

  /** Lockout: when none of the attempts still allowed succeeds, login
      returns no user, whatever is typed afterwards. */
  lemma {:induction false} LoginLockout(users: map<string, string>, inputs: seq<Attempt>, failures: nat)
    requires forall j :: 0 <= j < |inputs| && failures + j < MaxAttempts ==> !Accepts(users, inputs[j])
    ensures LoginFrom(users, inputs, failures) == None
    decreases |inputs|
  {
    if failures < MaxAttempts && inputs != [] {
      assert !Accepts(users, inputs[0]);
      forall j | 0 <= j < |inputs[1..]| && failures + 1 + j < MaxAttempts
        ensures !Accepts(users, inputs[1..][j])
      {
        assert inputs[1..][j] == inputs[j + 1];
      }
      LoginLockout(users, inputs[1..], failures + 1);
    }
  }

  /** Login reads at most `MaxAttempts` attempts: what follows them never
      changes the outcome. */
  lemma {:induction false} LoginReadsAtMostMaxAttempts(users: map<string, string>, inputs: seq<Attempt>, later: seq<Attempt>, failures: nat)
    requires failures + |inputs| >= MaxAttempts
    ensures LoginFrom(users, inputs + later, failures) == LoginFrom(users, inputs, failures)
    decreases |inputs|
  {
    if failures < MaxAttempts {
      assert (inputs + later)[0] == inputs[0];
      assert (inputs + later)[1..] == inputs[1..] + later;
      LoginReadsAtMostMaxAttempts(users, inputs[1..], later, failures + 1);
    }
  }

  /** Why `create_user` refuses a username or a password. */
  datatype SignupError = EmptyUsername | UsernameTaken | EmptyPassword | PasswordMismatch

  /** A successful sign-up: the updated credential map and the new username. */
  datatype Registered = Registered(users: map<string, string>, username: string)

  /** One pass of `create_user`'s prompts. The stripped username must be
      non-empty and new, then the password must be non-empty and equal to its
      confirmation; the first rule broken, in that order, is reported and the
      program asks again. */
  function CreateUser(users: map<string, string>, typedUsername: string, password: string, confirmation: string): (r: Result<Registered, SignupError>)
    ensures r.Success? <==>
      Strip(typedUsername) != "" && Strip(typedUsername) !in users && password != "" && password == confirmation
    ensures r == Failure(EmptyUsername) <==> Strip(typedUsername) == ""
    ensures r == Failure(UsernameTaken) <==> Strip(typedUsername) != "" && Strip(typedUsername) in users
    ensures r == Failure(EmptyPassword) <==>
      Strip(typedUsername) != "" && Strip(typedUsername) !in users && password == ""
    ensures r.Success? ==>
      && r.value.username == Strip(typedUsername)
      && r.value.users.Keys == users.Keys + {r.value.username}
      && r.value.users[r.value.username] == password
      && forall u :: u in users ==> r.value.users[u] == users[u]
  {
    var name := Strip(typedUsername);
    if name == "" then Failure(EmptyUsername)
    else if name in users then Failure(UsernameTaken)
    else if password == "" then Failure(EmptyPassword)
    else if password != confirmation then Failure(PasswordMismatch)
    else Success(Registered(users[name := password], name))
  }

  /** A user who has just signed up logs in at the first try with the same
      username and password, whether or not the name is typed stripped. */
  lemma SignupThenLogin(users: map<string, string>, typedUsername: string, password: string, confirmation: string, retyped: string)
    requires CreateUser(users, typedUsername, password, confirmation).Success?
    requires retyped == typedUsername || retyped == Strip(typedUsername)
    ensures LoginFrom(CreateUser(users, typedUsername, password, confirmation).value.users, [Attempt(retyped, password)], 0)
      == Some(Strip(typedUsername))
  {
    StripIdempotent(typedUsername);
  }

  /** Signing up a new user keeps every existing login working. */
  lemma SignupKeepsLogins(users: map<string, string>, typedUsername: string, password: string, confirmation: string, a: Attempt)
    requires CreateUser(users, typedUsername, password, confirmation).Success?
    requires Accepts(users, a)
    ensures Accepts(CreateUser(users, typedUsername, password, confirmation).value.users, a)
  {
  }
}
