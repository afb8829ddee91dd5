/** Registration: a new account is created together with the one-time code
    that verifies its email address. The user table is keyed by email, as the
    duplicate check looks users up by email; the one-time codes are rows in
    creation order. Hashing is symbolic, and the id the database assigns, the
    hash salt, the code and its expiry time are inputs. */
module Auths {
  import opened Wrappers
  import opened ApiErrors

  /** The stored form of a password: what the password hasher produced from
      the plaintext and a salt. It is a different type from the plaintext. */
  datatype PasswordHash = Hash(password: string, salt: string)

  /** A row of the user table. */
  datatype User = User(
    id: string,
    name: string,
    image: string,
    email: string,
    password: PasswordHash,
    role: string,
    phone: string,
    isVerified: bool,
    fcmToken: Option<string>)

  /** A user as the service returns it: every field but the password. */
  datatype SafeUser = SafeUser(
    id: string,
    name: string,
    image: string,
    email: string,
    role: string,
    phone: string,
    isVerified: bool,
    fcmToken: Option<string>)

  /** The validated request body. */
  datatype RegisterPayload = RegisterPayload(
    name: string,
    image: string,
    email: string,
    phone: string,
    password: string,
    role: string,
    fcmToken: Option<string>)

  datatype OtpType = VerifyEmail

  /** A row of the one-time code table. */
  datatype Otp = Otp(code: string, email: string, otpType: OtpType, expiresAt: int)

  /** The two tables registration touches. */
  datatype Store = Store(users: map<string, User>, otps: seq<Otp>)

  /** What registration returns, and the tables after it. */
  datatype Registration = Registration(result: Result<SafeUser, ApiError>, store: Store)

  /** `const { password, ...userResponse } = user` */
  function WithoutPassword(u: User): SafeUser
  {
    SafeUser(u.id, u.name, u.image, u.email, u.role, u.phone, u.isVerified, u.fcmToken)
  }

  /** Puts a password back on a returned user. */
  function WithPassword(s: SafeUser, password: PasswordHash): User
  {
    User(s.id, s.name, s.image, s.email, password, s.role, s.phone, s.isVerified, s.fcmToken)
  }

  /** Dropping the password loses nothing else: each projection undoes the other. */
  lemma PasswordRoundTrip(u: User, s: SafeUser, h: PasswordHash)
    ensures WithPassword(WithoutPassword(u), u.password) == u
    ensures WithoutPassword(WithPassword(s, h)) == s
    ensures WithoutPassword(u) == s <==> u == WithPassword(s, u.password)
  {
  }

  /** Every user is filed under its own email. */
  predicate Consistent(s: Store)
  {
    forall e :: e in s.users ==> s.users[e].email == e
  }

  /** `createUserIntoDB`: reject a taken email; otherwise write the new user
      and its VERIFY_EMAIL code together and return the user without its password. */
  function Register(s: Store, p: RegisterPayload, id: string, salt: string, code: string, expiresAt: int): Registration
  {
    if p.email in s.users then
      Registration(Err(ApiError(BadRequest, "User already exists")), s)
    else
      var user := User(id, p.name, p.image, p.email, Hash(p.password, salt), p.role, p.phone, false, p.fcmToken);
      var otp := Otp(code, user.email, VerifyEmail, expiresAt);
      Registration(Ok(WithoutPassword(user)), Store(s.users[user.email := user], s.otps + [otp]))
  }

  /** A taken email is refused with a bad request and both tables stay as they were. */
  lemma RegisterRejectsDuplicate(s: Store, p: RegisterPayload, id: string, salt: string, code: string, expiresAt: int)
    requires p.email in s.users
    ensures Register(s, p, id, salt, code, expiresAt).result == Err(ApiError(BadRequest, "User already exists"))
    ensures Register(s, p, id, salt, code, expiresAt).store == s
  {
  }

  /** A free email gets one new user, unverified and with the hashed password,
      filed under that email; every other user is kept as it was. */
  lemma RegisterCreatesUser(s: Store, p: RegisterPayload, id: string, salt: string, code: string, expiresAt: int)
    requires p.email !in s.users
    ensures var after := Register(s, p, id, salt, code, expiresAt).store;
            && after.users.Keys == s.users.Keys + {p.email}
            && (forall e :: e in s.users ==> after.users[e] == s.users[e])
            && after.users[p.email].isVerified == false
            && after.users[p.email].password == Hash(p.password, salt)
            && after.users[p.email].email == p.email
            && WithoutPassword(after.users[p.email])
               == SafeUser(id, p.name, p.image, p.email, p.role, p.phone, false, p.fcmToken)
  {
  }

  /** A free email gets exactly one VERIFY_EMAIL code for that email, after the existing rows, which are unchanged. */
  lemma RegisterAddsOneOtp(s: Store, p: RegisterPayload, id: string, salt: string, code: string, expiresAt: int)
    requires p.email !in s.users
    ensures var after := Register(s, p, id, salt, code, expiresAt).store;
            && |after.otps| == |s.otps| + 1
            && after.otps[..|s.otps|] == s.otps
            && after.otps[|s.otps|] == Otp(code, p.email, VerifyEmail, expiresAt)
  {
  }

  /** The result is the stored user without its password. */
  lemma RegisterReturnsStoredUser(s: Store, p: RegisterPayload, id: string, salt: string, code: string, expiresAt: int)
    requires Register(s, p, id, salt, code, expiresAt).result.Ok?
    ensures var reg := Register(s, p, id, salt, code, expiresAt);
            && p.email in reg.store.users
            && reg.result.value == WithoutPassword(reg.store.users[p.email])
            && WithPassword(reg.result.value, reg.store.users[p.email].password) == reg.store.users[p.email]
  {
  }

  /** Both writes happen or neither does: the user table gains the email
      exactly when the code table gains a row, and then the call succeeded. */
  lemma RegisterAtomic(s: Store, p: RegisterPayload, id: string, salt: string, code: string, expiresAt: int)
    ensures var reg := Register(s, p, id, salt, code, expiresAt);
            || (reg.result.Err? && reg.store == s)
            || (reg.result.Ok? && p.email !in s.users && p.email in reg.store.users
                && reg.store.otps == s.otps + [Otp(code, p.email, VerifyEmail, expiresAt)])
  {
  }

  /** Registering keeps every user filed under its own email. */
  lemma RegisterKeepsConsistent(s: Store, p: RegisterPayload, id: string, salt: string, code: string, expiresAt: int)
    requires Consistent(s)
    ensures Consistent(Register(s, p, id, salt, code, expiresAt).store)
  {
  }

  /** Once an email is registered, any later registration with it fails and changes nothing. */
  lemma RegisterTwice(s: Store, p: RegisterPayload, q: RegisterPayload, id: string, salt: string, code: string, expiresAt: int,
                      id2: string, salt2: string, code2: string, expiresAt2: int)
    requires Register(s, p, id, salt, code, expiresAt).result.Ok?
    requires q.email == p.email
    ensures var after := Register(s, p, id, salt, code, expiresAt).store;
            && Register(after, q, id2, salt2, code2, expiresAt2).result == Err(ApiError(BadRequest, "User already exists"))
            && Register(after, q, id2, salt2, code2, expiresAt2).store == after
  {
    var after := Register(s, p, id, salt, code, expiresAt).store;
    RegisterReturnsStoredUser(s, p, id, salt, code, expiresAt);
    RegisterRejectsDuplicate(after, q, id2, salt2, code2, expiresAt2);
  }

  /** The user and one-time code tables. */
  class IdentityStore {
    var users: map<string, User>
    var otps: seq<Otp>

    ghost predicate Valid()
      reads this
    {
      Consistent(Store(users, otps))
    }

    constructor()
      ensures users == map[] && otps == [] && Valid()
    {
      users := map[];
      otps := [];
    }

    /** `createUserIntoDB`, with the transaction as one atomic step. */
    method CreateUser(p: RegisterPayload, id: string, salt: string, code: string, expiresAt: int)
      returns (r: Result<SafeUser, ApiError>)
      modifies this
      requires Valid()
      ensures Valid()
      ensures Registration(r, Store(users, otps)) == Register(old(Store(users, otps)), p, id, salt, code, expiresAt)
    {
      if p.email in users {
        return Err(ApiError(BadRequest, "User already exists"));
      }
      var hashedPassword := Hash(p.password, salt);
      var data := User(id, p.name, p.image, p.email, hashedPassword, p.role, p.phone, false, p.fcmToken);
      users := users[data.email := data];
      otps := otps + [Otp(code, data.email, VerifyEmail, expiresAt)];
      r := Ok(WithoutPassword(data));
    }
  }
}
