/** Registration and login over the users table. Password hashing, password
    comparison and token signing are foreign libraries; they enter the model as
    functions it knows nothing about, apart from the one assumption that a
    password matches its own hash where that is needed. */
module Auth {
  import opened JsText

  /** A row of the users table. */
  datatype User = User(id: nat, name: string, email: string, passwordHash: string)

  /** The payload a token is signed over. */
  datatype Claims = Claims(userId: nat, email: string)

  /** bcrypt.hash, bcrypt.compare and jwt.sign (with the secret and the
      seven-day expiry folded in). */
  datatype Crypto = Crypto(
    hash: string -> string,
    compare: (string, string) -> bool,
    sign: Claims -> string)

  /** The one property of the hash relied on: a password matches its hash. */
  ghost predicate HashMatches(crypto: Crypto) {
    forall p: string :: crypto.compare(p, crypto.hash(p))
  }

  /** The JSON answers of both routes. */
  datatype AuthReply =
    | Success(code: nat, message: string, userId: nat, email: string, name: string, token: string)
    | Failure(code: nat, error: string)

  const AllFieldsRequired := "All fields are required"
  const PasswordsDoNotMatch := "Passwords do not match"
  const PasswordTooShort := "Password must be at least 6 characters"
  const EmailAlreadyRegistered := "Email already registered"
  const RegisteredMessage := "User registered successfully"
  const CredentialsRequired := "Email and password are required"
  const InvalidCredentials := "Invalid email or password"
  const LoginMessage := "Login successful"
  const MinPasswordLength := 6

  /** The 400 answer of registration, or None when the body passes: presence
      of all four fields first, then the match, then the length, so a short
      mismatched pair is reported as a mismatch. */
  function RegistrationError(name: Option<string>, email: Option<string>,
                             password: Option<string>, confirmPassword: Option<string>): (r: Option<string>)
    ensures r == None <==>
      Truthy(name) && Truthy(email) && Truthy(password) && Truthy(confirmPassword) &&
      password.value == confirmPassword.value && Utf16Length(password.value) >= MinPasswordLength
    ensures !(Truthy(name) && Truthy(email) && Truthy(password) && Truthy(confirmPassword)) ==>
      r == Some(AllFieldsRequired)
    ensures (Truthy(name) && Truthy(email) && Truthy(password) && Truthy(confirmPassword) &&
             password.value != confirmPassword.value) ==> r == Some(PasswordsDoNotMatch)
    ensures (Truthy(name) && Truthy(email) && Truthy(password) && Truthy(confirmPassword) &&
             password.value == confirmPassword.value &&
             Utf16Length(password.value) < MinPasswordLength) ==> r == Some(PasswordTooShort)
  {
    if !Truthy(name) || !Truthy(email) || !Truthy(password) || !Truthy(confirmPassword) then
      Some(AllFieldsRequired)
    else if password.value != confirmPassword.value then
      Some(PasswordsDoNotMatch)
    else if Utf16Length(password.value) < MinPasswordLength then
      Some(PasswordTooShort)
    else
      None
  }

  /** `SELECT ... FROM users WHERE email = ?`: a stored user with exactly that
      email, or None when there is none. */
  function FindByEmail(users: seq<User>, email: string): (r: Option<User>)
    ensures r == None <==> forall i :: 0 <= i < |users| ==> users[i].email != email
    ensures r != None ==> r.value in users && r.value.email == email
  {
    if users == [] then None
    else if users[0].email == email then Some(users[0])
    else FindByEmail(users[1..], email)
  }

  /** What login answers once the email has been looked up: an unknown email
      and a wrong password get the very same 401; otherwise the user's id,
      email and name with a token over its id and email. */
  function LoginDecision(password: string, found: Option<User>, crypto: Crypto): (r: AuthReply)
    ensures r.Success? <==> found != None && crypto.compare(password, found.value.passwordHash)
    ensures r.Failure? ==> r == Failure(401, InvalidCredentials)
    ensures r.Success? ==>
      var u := found.value;
      r == Success(200, LoginMessage, u.id, u.email, u.name, crypto.sign(Claims(u.id, u.email)))
  {
    match found
    case None => Failure(401, InvalidCredentials)
    case Some(u) =>
      if !crypto.compare(password, u.passwordHash) then Failure(401, InvalidCredentials)
      else Success(200, LoginMessage, u.id, u.email, u.name, crypto.sign(Claims(u.id, u.email)))
  }

  /** A login under an unknown email and one with a wrong password cannot be
      told apart by their answers. */
  lemma UnknownEmailLikeWrongPassword(password: string, other: string, u: User, crypto: Crypto)
    requires !crypto.compare(other, u.passwordHash)
    ensures LoginDecision(password, None, crypto) == LoginDecision(other, Some(u), crypto)
  {
  }

  /** Some stored user has this email and the password matches its hash. */
  ghost predicate CanLogIn(users: seq<User>, email: string, password: string, crypto: Crypto) {
    exists i :: 0 <= i < |users| && users[i].email == email && crypto.compare(password, users[i].passwordHash)
  }

  ghost predicate EmailsUnique(users: seq<User>) {
    forall i, j :: 0 <= i < j < |users| ==> users[i].email != users[j].email
  }

  ghost predicate UserIdsIncreasing(users: seq<User>) {
    forall i, j :: 0 <= i < j < |users| ==> users[i].id < users[j].id
  }

  /** With unique emails, the user a lookup finds is the only one that can
      log in under that email. */
  lemma {:induction false} FoundIsOnlyCandidate(users: seq<User>, email: string, password: string, crypto: Crypto)
    requires EmailsUnique(users)
    requires FindByEmail(users, email) != None
    ensures CanLogIn(users, email, password, crypto) <==>
      crypto.compare(password, FindByEmail(users, email).value.passwordHash)
  {
    var u := FindByEmail(users, email).value;
    var j :| 0 <= j < |users| && users[j] == u;
    if CanLogIn(users, email, password, crypto) {
      var i :| 0 <= i < |users| && users[i].email == email && crypto.compare(password, users[i].passwordHash);
      assert i == j;
    }
  }

  /** The users table with its AUTOINCREMENT counter. */
  class UserStore {
    var users: seq<User>
    var nextUserId: nat

    /** Emails are unique (the UNIQUE constraint of the table) and ids
        increase below the counter. */
    ghost predicate Valid()
      reads this
    {
      1 <= nextUserId &&
      EmailsUnique(users) &&
      UserIdsIncreasing(users) &&
      (forall i :: 0 <= i < |users| ==> 1 <= users[i].id < nextUserId)
    }

    /** An empty table. */
    constructor ()
      ensures Valid() && users == [] && nextUserId == 1
    {
      users := [];
      nextUserId := 1;
    }

    /** POST /register: a rejected body or a taken email changes nothing;
        otherwise one user is inserted under a fresh id with the hash of the
        password, and the reply echoes the id, email and name with a token
        over the id and email. Given that a password matches its own hash,
        the new user can then log in with that password. */
    method Register(name: Option<string>, email: Option<string>, password: Option<string>,
                    confirmPassword: Option<string>, crypto: Crypto) returns (r: AuthReply)
      requires Valid()
      modifies this
      ensures Valid()
      ensures RegistrationError(name, email, password, confirmPassword) != None ==>
        r == Failure(400, RegistrationError(name, email, password, confirmPassword).value) &&
        users == old(users) && nextUserId == old(nextUserId)
      ensures (RegistrationError(name, email, password, confirmPassword) == None &&
               FindByEmail(old(users), email.value) != None) ==>
        r == Failure(409, EmailAlreadyRegistered) &&
        users == old(users) && nextUserId == old(nextUserId)
      ensures (RegistrationError(name, email, password, confirmPassword) == None &&
               FindByEmail(old(users), email.value) == None) ==>
        users == old(users) + [User(old(nextUserId), name.value, email.value, crypto.hash(password.value))] &&
        nextUserId == old(nextUserId) + 1 &&
        r == Success(201, RegisteredMessage, old(nextUserId), email.value, name.value,
                     crypto.sign(Claims(old(nextUserId), email.value)))
      ensures r.Success? && HashMatches(crypto) ==>
        CanLogIn(users, email.value, password.value, crypto)
    {
      var error := RegistrationError(name, email, password, confirmPassword);
      if error != None {
        return Failure(400, error.value);
      }
      if FindByEmail(users, email.value) != None {
        return Failure(409, EmailAlreadyRegistered);
      }
      var userId := nextUserId;
      var user := User(userId, name.value, email.value, crypto.hash(password.value));
      ghost var before := users;
      users := users + [user];
      nextUserId := nextUserId + 1;
      assert forall i :: 0 <= i < |before| ==> users[i] == before[i];
      assert users[|before|] == user;
      r := Success(201, RegisteredMessage, userId, email.value, name.value,
                   crypto.sign(Claims(userId, email.value)));
    }

    /** POST /login: reads the table only. A missing field is a 400; an
        unknown email and a wrong password are the same 401; a match answers
        with that user's id, email and name and a token over its id and
        email. */
    method Login(email: Option<string>, password: Option<string>, crypto: Crypto) returns (r: AuthReply)
      requires Valid()
      ensures !(Truthy(email) && Truthy(password)) ==> r == Failure(400, CredentialsRequired)
      ensures Truthy(email) && Truthy(password) ==>
        (r.Success? <==> CanLogIn(users, email.value, password.value, crypto))
      ensures Truthy(email) && Truthy(password) ==>
        r == LoginDecision(password.value, FindByEmail(users, email.value), crypto)
      ensures (Truthy(email) && Truthy(password) && r.Failure?) ==> r == Failure(401, InvalidCredentials)
      ensures r.Success? ==>
        exists i :: 0 <= i < |users| && users[i].email == email.value &&
          r == Success(200, LoginMessage, users[i].id, users[i].email, users[i].name,
                       crypto.sign(Claims(users[i].id, users[i].email)))
    {
      if !Truthy(email) || !Truthy(password) {
        return Failure(400, CredentialsRequired);
      }
      var found := FindByEmail(users, email.value);
      if found != None {
        FoundIsOnlyCandidate(users, email.value, password.value, crypto);
      }
      r := LoginDecision(password.value, found, crypto);
    }
  }
}
