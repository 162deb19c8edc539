/** Request flows built from the service's operations: what a client of the
    service can conclude from their contracts alone, given what it assumes of
    the hashing library. */
module AuthScenarios {
  import opened Auth

  /** argon2 accepts a password against a hash made from that same password. */
  ghost predicate AcceptsOwnPassword(argon2: PasswordHasher) {
    forall password, salt :: argon2.verify(argon2.hash(password, salt), password)
  }

  /** argon2 rejects a password against a hash made from a different one
      (an idealisation: a real hash could collide). */
  ghost predicate RejectsOtherPasswords(argon2: PasswordHasher) {
    forall password, other, salt :: password != other ==> !argon2.verify(argon2.hash(password, salt), other)
  }

  /** Signing up a fresh username and logging in with the same credentials both
      succeed, each with a token for that username issued at its own time. */
  method SignupThenLogin(service: AuthService, newUser: SignupDto, salt: Salt, signedUpAt: Millis, loggedInAt: Millis)
    returns (signedUp: Result<AccessToken, AuthError>, loggedIn: Result<AccessToken, AuthError>)
    requires AcceptsOwnPassword(service.argon2)
    requires service.FindUser(newUser.username).None?
    modifies service
    ensures signedUp == Success(CreateAccessToken(service.jwtService, newUser.username, signedUpAt))
    ensures loggedIn == Success(CreateAccessToken(service.jwtService, newUser.username, loggedInAt))
    ensures |service.users| == |old(service.users)| + 1
  {
    signedUp := service.Signup(newUser, salt, signedUpAt);
    loggedIn := service.Login(LoginDto(newUser.username, newUser.password), loggedInAt);
  }

  /** On a fresh service: the first signup of a username succeeds, a second one
      with the same username fails with Conflict whatever its other fields, and
      only the first record is kept. */
  method DuplicateSignup(jwtService: JwtService, argon2: PasswordHasher, first: SignupDto, second: SignupDto,
                         salt1: Salt, salt2: Salt, now1: Millis, now2: Millis)
    returns (r1: Result<AccessToken, AuthError>, r2: Result<AccessToken, AuthError>, users: seq<User>)
    requires first.username == second.username
    ensures r1 == Success(CreateAccessToken(jwtService, first.username, now1))
    ensures r2 == Failure(Conflict(ConflictMessage(first.username)))
    ensures users == [User(first.username, argon2.hash(first.password, salt1), first.firstName, first.lastName)]
  {
    var service := new AuthService(jwtService, argon2);
    r1 := service.Signup(first, salt1, now1);
    r2 := service.Signup(second, salt2, now2);
    users := service.users;
  }

  /** On a fresh service holding one user: a wrong password and an unknown
      username fail with the very same error, while the right password succeeds. */
  method LoginFailuresIndistinguishable(jwtService: JwtService, argon2: PasswordHasher, newUser: SignupDto,
                                        salt: Salt, wrongPassword: string, unknownUsername: string, now: Millis)
    returns (wrong: Result<AccessToken, AuthError>, unknown: Result<AccessToken, AuthError>,
             right: Result<AccessToken, AuthError>)
    requires AcceptsOwnPassword(argon2) && RejectsOtherPasswords(argon2)
    requires wrongPassword != newUser.password
    requires unknownUsername != newUser.username
    ensures wrong == unknown == Failure(Unauthorized(LoginFailedMessage))
    ensures right == Success(CreateAccessToken(jwtService, newUser.username, now))
  {
    var service := new AuthService(jwtService, argon2);
    var _ := service.Signup(newUser, salt, now);
    wrong := service.Login(LoginDto(newUser.username, wrongPassword), now);
    FindUnaffectedByAppend([], service.users[0], unknownUsername);
    unknown := service.Login(LoginDto(unknownUsername, newUser.password), now);
    right := service.Login(LoginDto(newUser.username, newUser.password), now);
  }
}
