/**
 * The demo sign-in flow of src/contexts/AuthContext.tsx: a registry of
 * accounts, one pending six-digit verification code per email, the email
 * awaiting verification and the persisted session, all of which the
 * application keeps in browser storage, plus the in-memory session state.
 *
 * `Math.random()` is the parameter `draw`, the value of
 * `Math.floor(Math.random() * 900000)`; `Date.now()` is the parameter `newId`.
 */
module Auth {
  import opened Decimal
  import opened Types
  import opened Seqs

  /** The random part of a code: 0..899999. */
  type Draw = n: nat | n < 900000

  /** `Math.floor(100000 + Math.random() * 900000).toString()`: six decimal digits, 100000..999999. */
  function VerificationCode(draw: Draw): (code: string)
    ensures |code| == 6 && AllDigits(code)
    ensures 100000 <= DigitsValue(code) <= 999999
    ensures DigitsValue(code) == 100000 + draw
  {
    assert Pow10(5) == 100000 && Pow10(6) == 1000000 by {
      assert Pow10(2) == 100;
      assert Pow10(4) == 10000;
    }
    NatToStringLength(100000 + draw, 6);
    ParseNatToString(100000 + draw);
    NatToString(100000 + draw)
  }

  /** Different draws send different codes. */
  lemma VerificationCodeInjective(a: Draw, b: Draw)
    requires VerificationCode(a) == VerificationCode(b)
    ensures a == b
  {
  }

  function WithCredentials(email: string, password: string): User -> bool {
    (u: User) => u.email == email && u.password == password
  }

  function WithEmail(email: string): User -> bool {
    (u: User) => u.email == email
  }

  /** `users.find(u => u.email === email && u.password === password)`. */
  function FindByCredentials(users: seq<User>, email: string, password: string): (r: Option<User>)
    ensures r.None? <==> forall u :: u in users ==> !(u.email == email && u.password == password)
    ensures r.Some? ==> r.value in users && r.value.email == email && r.value.password == password
  {
    Find(users, WithCredentials(email, password))
  }

  /** `users.find(u => u.email === email)`. */
  function FindByEmail(users: seq<User>, email: string): (r: Option<User>)
    ensures r.None? <==> forall u :: u in users ==> u.email != email
    ensures r.Some? ==> r.value in users && r.value.email == email
    ensures r.Some? ==> exists i :: 0 <= i < |users| && users[i] == r.value
                                   && forall j :: 0 <= j < i ==> users[j].email != email
  {
    Find(users, WithEmail(email))
  }

  function DifferentEmail(a: User, b: User): bool {
    a.email != b.email
  }

  /** No two accounts share an email: what `signup`'s duplicate check keeps. */
  ghost predicate UniqueEmails(users: seq<User>) {
    Pairwise(users, DifferentEmail)
  }

  /** With unique emails, looking an account up by email finds the one that signed in with it. */
  lemma EmailIdentifiesAccount(users: seq<User>, u: User)
    requires UniqueEmails(users) && u in users
    ensures FindByEmail(users, u.email) == Some(u)
  {
    var v := FindByEmail(users, u.email).value;
    var i :| 0 <= i < |users| && users[i] == u;
    var j :| 0 <= j < |users| && users[j] == v;
  }

  /** Appending an account under an email nobody has keeps emails unique. */
  lemma RegisterKeepsUnique(users: seq<User>, u: User)
    requires UniqueEmails(users)
    requires forall v :: v in users ==> v.email != u.email
    ensures UniqueEmails(users + [u])
  {
    var r := users + [u];
    forall i, j | 0 <= i < j < |r| ensures DifferentEmail(r[i], r[j]) {
      if j < |users| {
        assert DifferentEmail(users[i], users[j]);
      } else {
        assert users[i] in users;
      }
    }
  }

  /**
   * The provider's state. The first four fields are what browser storage
   * holds (`byteshop_users`, the `byteshop_verification_<email>` keys,
   * `byteshop_pending_email`, `byteshop_user`); the last two are React state.
   */
  class AuthProvider {
    var users: seq<User>
    var codes: map<string, string>
    var pendingEmail: Option<string>
    var storedUser: Option<User>
    var user: Option<User>
    var isAuthenticated: bool

    /** The session in memory mirrors the persisted one. */
    predicate SessionMirrored()
      reads this
    {
      isAuthenticated == user.Some? && user == storedUser
    }

    /**
     * Mounting over the given storage: the mount effect restores the
     * persisted session, so the provider is authenticated exactly when
     * a session was stored.
     */
    constructor(registry: seq<User>, storedCodes: map<string, string>, pending: Option<string>, session: Option<User>)
      ensures users == registry && codes == storedCodes && pendingEmail == pending && storedUser == session
      ensures isAuthenticated <==> session.Some?
      ensures user == session
      ensures SessionMirrored()
    {
      users, codes, pendingEmail, storedUser := registry, storedCodes, pending, session;
      user, isAuthenticated := None, false;
      if session.Some? {
        user := session;
        isAuthenticated := true;
      }
    }

    /**
     * `login`: right credentials start a verification (a new code for the
     * email, the email pending) without signing in; wrong ones change nothing.
     */
    method Login(email: string, password: string, draw: Draw) returns (ok: bool)
      modifies this
      ensures ok <==> exists u :: u in users && u.email == email && u.password == password
      ensures ok ==> codes == old(codes)[email := VerificationCode(draw)] && pendingEmail == Some(email)
      ensures !ok ==> codes == old(codes) && pendingEmail == old(pendingEmail)
      ensures users == old(users) && storedUser == old(storedUser)
      ensures user == old(user) && isAuthenticated == old(isAuthenticated)
    {
      var foundUser := FindByCredentials(users, email, password);
      if foundUser.Some? {
        pendingEmail := Some(email);
        codes := codes[email := VerificationCode(draw)];
        ok := true;
      } else {
        ok := false;
      }
    }

    /**
     * `verifyTwoFactor`: succeeds exactly when the code stored for the email
     * equals the one given and an account has that email. Success signs the
     * account in, persists the session and discards the code and the pending
     * email; failure changes nothing.
     */
    method VerifyTwoFactor(email: string, verificationCode: string) returns (ok: bool)
      modifies this
      ensures ok <==> email in old(codes) && old(codes)[email] == verificationCode
                      && exists u :: u in users && u.email == email
      ensures ok ==> && user == FindByEmail(old(users), email) && user.Some? && user.value.email == email
                     && isAuthenticated && storedUser == user
                     && codes == old(codes) - {email} && email !in codes
                     && pendingEmail == None
      ensures !ok ==> && codes == old(codes) && pendingEmail == old(pendingEmail)
                      && user == old(user) && isAuthenticated == old(isAuthenticated)
                      && storedUser == old(storedUser)
      ensures users == old(users)
      ensures ok ==> SessionMirrored()
    {
      ok := false;
      if email in codes && codes[email] == verificationCode {
        var foundUser := FindByEmail(users, email);
        if foundUser.Some? {
          user := foundUser;
          isAuthenticated := true;
          storedUser := foundUser;
          pendingEmail := None;
          codes := codes - {email};
          ok := true;
        }
      }
    }

    /** `resendVerificationCode`: a new code replaces the email's code, whoever asks. */
    method ResendVerificationCode(email: string, draw: Draw)
      modifies this
      ensures codes == old(codes)[email := VerificationCode(draw)]
      ensures users == old(users) && pendingEmail == old(pendingEmail) && storedUser == old(storedUser)
      ensures user == old(user) && isAuthenticated == old(isAuthenticated)
    {
      codes := codes[email := VerificationCode(draw)];
    }

    /**
     * `signup`: a taken email is refused and nothing changes; otherwise the
     * account is registered, its email becomes pending and a code is stored,
     * without signing anyone in.
     */
    method Signup(email: string, password: string, newId: string, draw: Draw) returns (ok: bool)
      modifies this
      ensures ok <==> forall u :: u in old(users) ==> u.email != email
      ensures ok ==> && users == old(users) + [User(newId, email, password)]
                     && pendingEmail == Some(email)
                     && codes == old(codes)[email := VerificationCode(draw)]
      ensures !ok ==> users == old(users) && pendingEmail == old(pendingEmail) && codes == old(codes)
      ensures storedUser == old(storedUser) && user == old(user) && isAuthenticated == old(isAuthenticated)
      ensures UniqueEmails(old(users)) ==> UniqueEmails(users)
    {
      if FindByEmail(users, email).Some? {
        ok := false;
        return;
      }
      if UniqueEmails(users) {
        RegisterKeepsUnique(users, User(newId, email, password));
      }
      users := users + [User(newId, email, password)];
      pendingEmail := Some(email);
      codes := codes[email := VerificationCode(draw)];
      ok := true;
    }

    /** `logout`: the session is dropped in memory and in storage. */
    method Logout()
      modifies this
      ensures user.None? && !isAuthenticated && storedUser.None?
      ensures users == old(users) && codes == old(codes) && pendingEmail == old(pendingEmail)
      ensures SessionMirrored()
    {
      user := None;
      isAuthenticated := false;
      storedUser := None;
    }
  }

  /**
   * Signing in end to end: after a successful login, entering the code it
   * sent succeeds and signs in the very account whose credentials were given
   * (emails being unique); entering the same code again then fails.
   */
  method SignInWithSentCode(auth: AuthProvider, email: string, password: string, draw: Draw)
    returns (loggedIn: bool, verified: bool, replayed: bool)
    requires UniqueEmails(auth.users)
    modifies auth
    ensures loggedIn <==> FindByCredentials(old(auth.users), email, password).Some?
    ensures loggedIn ==> verified && auth.isAuthenticated
                         && auth.user == FindByCredentials(old(auth.users), email, password)
    ensures !replayed
  {
    loggedIn := auth.Login(email, password, draw);
    verified, replayed := false, false;
    if loggedIn {
      var u := FindByCredentials(auth.users, email, password).value;
      EmailIdentifiesAccount(auth.users, u);
      verified := auth.VerifyTwoFactor(email, VerificationCode(draw));
      replayed := auth.VerifyTwoFactor(email, VerificationCode(draw));
    }
  }
}
