/** A model of the authentication service: an in-memory credential store that
    registers users with salted password hashes and, after signup or a
    successful login, returns a signed token with an expiry two minutes after
    issue, passing `expiresIn = 120000` (milliseconds) to the signer.

    The foreign pieces are values handed in from outside:
    - the argon2 library is a `PasswordHasher` whose `hash` takes the random
      salt it would draw as an explicit argument, and whose `verify` is an
      uninterpreted check of a stored hash against a plain password;
    - the JWT library is a `JwtService` whose `sign` turns a payload and its
      options into an opaque token string;
    - the clock is a millisecond timestamp `now` passed to each operation. */
module Auth {

  datatype Option<T> = None | Some(value: T)

  datatype Result<T, E> = Success(value: T) | Failure(error: E)

  /** A stored user record; `password` holds the argon2 hash, never the plain text. */
  datatype User = User(username: string, password: string, firstName: string, lastName: string)

  /** Request bodies of the two endpoints. */
  datatype SignupDto = SignupDto(username: string, password: string, firstName: string, lastName: string)
  datatype LoginDto = LoginDto(username: string, password: string)

  /** The two exceptions the service throws, each with its message. */
  datatype AuthError = Conflict(message: string) | Unauthorized(message: string)

  /** What the service hands back on success: the signed token and its expiry. */
  datatype AccessToken = AccessToken(accessToken: string, expiredAt: Millis)

  /** The JWT claims and options passed to the signer. */
  datatype Payload = Payload(sub: string)
  datatype SignOptions = SignOptions(expiresIn: int)

  /** A point in time or a duration, in milliseconds. */
  type Millis = int

  /** The random salt argon2 draws on every call to `hash`. */
  type Salt = nat

  /** The argon2 library: `hash(password, salt)` and `verify(storedHash, password)`. */
  datatype PasswordHasher = PasswordHasher(hash: (string, Salt) -> string, verify: (string, string) -> bool)

  /** The JWT library, already configured with its secret: `sign(payload, options)`.
      The signing time the real signer embeds is not an input here. */
  datatype JwtService = JwtService(sign: (Payload, SignOptions) -> string)

  const MillisPerMinute: Millis := 60000

  /** Token lifetime, in minutes, added to the issuing time. */
  const TokenLifetimeMinutes: int := 2

  /** The message of the Unauthorized exception thrown by every failed login. */
  const LoginFailedMessage: string := "Username or password may be incorrect. Please try again"

  /** The message of the Conflict exception, as written including its stray closing brace. */
  function ConflictMessage(username: string): (message: string) {
    "User with username " + username + " already exists}"
  }

  /** `moment.add(minutes, "minutes")` on a millisecond timestamp. */
  function AddMinutes(t: Millis, minutes: int): (later: Millis) {
    t + minutes * MillisPerMinute
  }

  /** `later.diff(earlier)`: the elapsed time in milliseconds. */
  function Diff(later: Millis, earlier: Millis): (elapsed: Millis) {
    later - earlier
  }

  /** `users.find(u => u.username === username)`: the first record whose username
      is exactly `username`, or None when there is none. */
  function FindFirst(users: seq<User>, username: string): (r: Option<User>)
    ensures r.None? <==> forall i :: 0 <= i < |users| ==> users[i].username != username
    ensures r.Some? ==> exists i :: 0 <= i < |users| && IsFirstMatch(users, username, i) && r.value == users[i]
  {
    if |users| == 0 then None
    else if users[0].username == username then
      assert IsFirstMatch(users, username, 0);
      Some(users[0])
    else
      var r := FindFirst(users[1..], username);
      assert r.Some? ==> exists i :: 0 <= i < |users| && IsFirstMatch(users, username, i) && r.value == users[i] by {
        if r.Some? {
          var k :| 0 <= k < |users| - 1 && IsFirstMatch(users[1..], username, k) && r.value == users[1..][k];
          assert IsFirstMatch(users, username, k + 1);
        }
      }
      assert r.None? ==> forall i :: 0 <= i < |users| ==> users[i].username != username by {
        if r.None? {
          forall i | 0 <= i < |users| ensures users[i].username != username {
            if i > 0 { assert users[i] == users[1..][i - 1]; }
          }
        }
      }
      r
  }

  /** Record `i` carries `username` and no earlier record does. */
  ghost predicate IsFirstMatch(users: seq<User>, username: string, i: int)
    requires 0 <= i < |users|
  {
    users[i].username == username &&
    forall j :: 0 <= j < i ==> users[j].username != username
  }

  /** The store's invariant: no two records share a username. */
  ghost predicate UniqueUsernames(users: seq<User>) {
    forall i, j :: 0 <= i < j < |users| ==> users[i].username != users[j].username
  }

  /** `createAccessToken`: signs `{sub: username}` with `expiresIn` equal to the
      distance from `now` to an expiry two minutes later, and returns that expiry. */
  function CreateAccessToken(jwtService: JwtService, username: string, now: Millis): (t: AccessToken)
    ensures t.expiredAt == now + 120000
    ensures t.accessToken == jwtService.sign(Payload(username), SignOptions(t.expiredAt - now))
    ensures t.accessToken == jwtService.sign(Payload(username), SignOptions(120000))
  {
    var expireDate := AddMinutes(now, TokenLifetimeMinutes);
    var accessToken := jwtService.sign(Payload(username), SignOptions(Diff(expireDate, now)));
    AccessToken(accessToken, expireDate)
  }

  /** Appending a record whose username is not yet present makes lookups of that
      username return the new record. */
  lemma {:induction false} FindAppendedRecord(users: seq<User>, u: User)
    requires FindFirst(users, u.username).None?
    ensures FindFirst(users + [u], u.username) == Some(u)
  {
    var all := users + [u];
    assert all[|users|].username == u.username;
    forall k | 0 <= k < |users| ensures all[k].username != u.username {
      assert all[k] == users[k];
    }
  }

  /** Appending a record leaves lookups of every other username as they were. */
  lemma {:induction false} FindUnaffectedByAppend(users: seq<User>, u: User, username: string)
    requires u.username != username
    ensures FindFirst(users + [u], username) == FindFirst(users, username)
  {
    if |users| > 0 {
      assert (users + [u])[1..] == users[1..] + [u];
      FindUnaffectedByAppend(users[1..], u, username);
    }
  }

  /** Appending a record with a fresh username keeps usernames unique. */
  lemma AppendFreshKeepsUnique(users: seq<User>, u: User)
    requires UniqueUsernames(users)
    requires FindFirst(users, u.username).None?
    ensures UniqueUsernames(users + [u])
  {
  }

  /** In a store with unique usernames, looking up a stored username finds that record. */
  lemma {:induction false} FindStoredRecord(users: seq<User>, i: nat)
    requires UniqueUsernames(users)
    requires i < |users|
    ensures FindFirst(users, users[i].username) == Some(users[i])
  {
    var r := FindFirst(users, users[i].username);
    var k :| 0 <= k < |users| && IsFirstMatch(users, users[i].username, k) && r.value == users[k];
    assert !(k < i) && !(i < k);
  }

  class AuthService {
    /** The in-memory user list. */
    var users: seq<User>
    const jwtService: JwtService
    const argon2: PasswordHasher

    /** The service starts with no users. */
    constructor (jwtService: JwtService, argon2: PasswordHasher)
      ensures users == []
      ensures this.jwtService == jwtService && this.argon2 == argon2
    {
      users := [];
      this.jwtService := jwtService;
      this.argon2 := argon2;
    }

    /** `findUser`: exact, case-sensitive lookup in the current user list. */
    function FindUser(username: string): (r: Option<User>)
      reads this
      ensures r.None? <==> forall i :: 0 <= i < |users| ==> users[i].username != username
      ensures r.Some? ==> exists i :: 0 <= i < |users| && IsFirstMatch(users, username, i) && r.value == users[i]
    {
      FindFirst(users, username)
    }

    /** `signup`: a taken username fails with Conflict and changes nothing; a fresh
        one appends exactly one record holding the hash of the password (under
        the salt argon2 draws) and returns a token for the new user. */
    method Signup(newUser: SignupDto, salt: Salt, now: Millis) returns (r: Result<AccessToken, AuthError>)
      modifies this
      ensures FindFirst(old(users), newUser.username).Some? ==>
                r == Failure(Conflict(ConflictMessage(newUser.username))) && users == old(users)
      ensures FindFirst(old(users), newUser.username).None? ==>
                users == old(users) + [User(newUser.username, argon2.hash(newUser.password, salt),
                                            newUser.firstName, newUser.lastName)] &&
                r == Success(CreateAccessToken(jwtService, newUser.username, now))
      ensures r.Success? ==> FindUser(newUser.username) == Some(users[|users| - 1])
      ensures UniqueUsernames(old(users)) ==> UniqueUsernames(users)
    {
      if FindFirst(users, newUser.username).Some? {
        return Failure(Conflict(ConflictMessage(newUser.username)));
      }
      var user := User(newUser.username, argon2.hash(newUser.password, salt), newUser.firstName, newUser.lastName);
      ghost var before := users;
      users := users + [user];
      FindAppendedRecord(before, user);
      if UniqueUsernames(before) {
        AppendFreshKeepsUnique(before, user);
      }
      r := Success(CreateAccessToken(jwtService, user.username, now));
    }

    /** `login`: succeeds exactly when a record with the username exists and argon2
        accepts the password against its stored hash, and then returns a token for
        that username. Every failure is the same Unauthorized error, so an unknown
        user cannot be told apart from a wrong password. The user list is only read. */
    method Login(user: LoginDto, now: Millis) returns (r: Result<AccessToken, AuthError>)
      ensures r.Success? <==>
                FindUser(user.username).Some? &&
                argon2.verify(FindUser(user.username).value.password, user.password)
      ensures r.Success? ==> r.value == CreateAccessToken(jwtService, user.username, now)
      ensures r.Failure? ==> r.error == Unauthorized(LoginFailedMessage)
    {
      var existingUser := FindUser(user.username);
      // The source guards here with a test of the request body rather than of
      // `existingUser`, so that guard never fires; an absent record instead fails
      // when its password is read, and the catch-all turns that into Unauthorized.
      if existingUser.None? {
        return Failure(Unauthorized(LoginFailedMessage));
      }
      var passwordMatch := argon2.verify(existingUser.value.password, user.password);
      if !passwordMatch {
        return Failure(Unauthorized(LoginFailedMessage));
      }
      r := Success(CreateAccessToken(jwtService, user.username, now));
    }
  }
}
