/** The auth controller: `register` (POST /auth/register) and `login`
    (POST /auth/login) over the User table. Password hashing and comparison
    (bcrypt) and token signing (jsonwebtoken) are foreign code; they enter the
    model as functions the caller supplies. */
module AuthController {
  import opened Schema

  /** The foreign primitives: `bcrypt.hash`, `bcrypt.compare` and `jwt.sign` of a
      payload `{ id }` under the server's secret. */
  datatype Crypto = Crypto(hash: string -> string, compare: (string, string) -> bool, sign: int -> string)

  /** The one property of bcrypt the controllers rely on: a password matches its own hash. */
  ghost predicate HashSound(c: Crypto) {
    forall p :: c.compare(p, c.hash(p))
  }

  /** Some row of the User table has this email. */
  predicate EmailTaken(users: seq<User>, email: string) {
    exists i :: 0 <= i < |users| && users[i].email == email
  }

  /** The unique index on `User.email`: no two rows share an email. */
  predicate EmailsUnique(users: seq<User>) {
    forall i, j :: 0 <= i < j < |users| ==> users[i].email != users[j].email
  }

  /** The User table as the database keeps it: emails unique, autoincrement ids
      increasing along the table and below the next id to hand out. */
  predicate UsersWellFormed(users: seq<User>, nextId: int) {
    && EmailsUnique(users)
    && (forall i, j :: 0 <= i < j < |users| ==> users[i].id < users[j].id)
    && (forall i :: 0 <= i < |users| ==> users[i].id < nextId)
  }

  /** `user.findUnique({ where: { email } })`. */
  function FindByEmail(users: seq<User>, email: string): (r: Option<User>)
    ensures r.None? <==> !EmailTaken(users, email)
    ensures r.Some? ==> r.value in users && r.value.email == email
  {
    if users == [] then None
    else if users[0].email == email then Some(users[0])
    else
      var r := FindByEmail(users[1..], email);
      assert EmailTaken(users, email) ==> EmailTaken(users[1..], email) by {
        if EmailTaken(users, email) {
          var i :| 0 <= i < |users| && users[i].email == email;
          assert users[1..][i - 1] == users[i];
        }
      }
      r
  }

  /** Under the unique index, the row found for an email is the only row with it. */
  lemma FindByEmailUnique(users: seq<User>, u: User)
    requires EmailsUnique(users) && u in users
    ensures FindByEmail(users, u.email) == Some(u)
  {
    var f := FindByEmail(users, u.email).value;
    var i :| 0 <= i < |users| && users[i] == u;
    var j :| 0 <= j < |users| && users[j] == f;
    assert i == j;
  }

  datatype RegisterReply = MissingFields | UserExists | Registered(user: PublicUser)
  {
    /** Both refusals are 400; a registration is 201. */
    function Status(): (r: int)
      ensures r == 201 <==> this.Registered?
      ensures r != 201 ==> r == 400
    {
      match this
      case MissingFields => 400
      case UserExists => 400
      case Registered(_) => 201
    }

    /** The two refusals share a status; their messages tell them apart. */
    function Message(): (r: string)
      ensures r == "All fields are required" <==> this.MissingFields?
      ensures r == "User already exists" <==> this.UserExists?
      ensures r == "User registered successfully" <==> this.Registered?
    {
      match this
      case MissingFields => "All fields are required"
      case UserExists => "User already exists"
      case Registered(_) => "User registered successfully"
    }
  }

  datatype RegisterResult = RegisterResult(reply: RegisterReply, users: seq<User>, nextId: int)

  /** What `register` does to the User table and replies, given the request's
      `name`, `email` and `password` (each absent or a string) and the hash function. */
  function RegisterOutcome(users: seq<User>, nextId: int, name: Option<string>, email: Option<string>,
                           password: Option<string>, hash: string -> string): (r: RegisterResult)
    ensures r.reply.MissingFields? <==> !(Truthy(name) && Truthy(email) && Truthy(password))
    ensures r.reply.UserExists? <==> Truthy(name) && Truthy(email) && Truthy(password) && EmailTaken(users, email.value)
    ensures !r.reply.Registered? ==> r.users == users && r.nextId == nextId
    ensures r.reply.Registered? ==>
      && r.users == users + [User(nextId, name.value, email.value, hash(password.value))]
      && r.nextId == nextId + 1
      && r.reply.user == PublicUser(nextId, name.value, email.value)
  {
    if !(Truthy(name) && Truthy(email) && Truthy(password)) then RegisterResult(MissingFields, users, nextId)
    else if FindByEmail(users, email.value).Some? then RegisterResult(UserExists, users, nextId)
    else
      var user := User(nextId, name.value, email.value, hash(password.value));
      RegisterResult(Registered(WithoutPassword(user)), users + [user], nextId + 1)
  }

  /** The reply of a successful registration is the stored row with its password column removed. */
  lemma RegisterReplyIsStoredRow(users: seq<User>, nextId: int, name: Option<string>, email: Option<string>,
                                 password: Option<string>, hash: string -> string)
    requires RegisterOutcome(users, nextId, name, email, password, hash).reply.Registered?
    ensures var r := RegisterOutcome(users, nextId, name, email, password, hash);
      |r.users| == |users| + 1 && r.reply.user == WithoutPassword(r.users[|users|])
      && r.users[|users|].password == hash(password.value)
  {
  }

  /** Registration keeps the User table well formed; in particular emails stay unique. */
  lemma RegisterPreservesWellFormed(users: seq<User>, nextId: int, name: Option<string>, email: Option<string>,
                                    password: Option<string>, hash: string -> string)
    requires UsersWellFormed(users, nextId)
    ensures var r := RegisterOutcome(users, nextId, name, email, password, hash);
      UsersWellFormed(r.users, r.nextId)
  {
    var r := RegisterOutcome(users, nextId, name, email, password, hash);
    if r.reply.Registered? {
      var n := |users|;
      assert forall i :: 0 <= i < n ==> r.users[i] == users[i];
      assert forall i :: 0 <= i < n ==> users[i].email != email.value;
    }
  }

  datatype LoginReply = MissingCredentials | InvalidCredentials | LoggedIn(token: string, user: PublicUser)
  {
    /** 400 for a missing credential, 401 for a refused one, the default 200 for a success. */
    function Status(): (r: int)
      ensures r == 400 <==> this.MissingCredentials?
      ensures r == 401 <==> this.InvalidCredentials?
      ensures r == 200 <==> this.LoggedIn?
    {
      match this
      case MissingCredentials => 400
      case InvalidCredentials => 401
      case LoggedIn(_, _) => 200
    }

    /** The `message` of an error reply; a successful reply carries none. */
    function Message(): (r: Option<string>)
      ensures r.None? <==> this.LoggedIn?
      ensures r == Some("Email and password are required") <==> this.MissingCredentials?
      ensures r == Some("Invalid credentials") <==> this.InvalidCredentials?
    {
      match this
      case MissingCredentials => Some("Email and password are required")
      case InvalidCredentials => Some("Invalid credentials")
      case LoggedIn(_, _) => None
    }
  }

  /** `login`: it reads the User table only once both credentials are present, and
      signs a token for the user's id when the password matches the stored hash. */
  function Login(users: seq<User>, email: Option<string>, password: Option<string>, crypto: Crypto): (r: LoginReply)
    ensures r.MissingCredentials? <==> !(Truthy(email) && Truthy(password))
    ensures r.LoggedIn? ==> exists u :: (u in users && u.email == email.value && crypto.compare(password.value, u.password)
      && r == LoggedIn(crypto.sign(u.id), WithoutPassword(u)))
  {
    if !(Truthy(email) && Truthy(password)) then MissingCredentials
    else
      match FindByEmail(users, email.value)
      case None => InvalidCredentials
      case Some(u) =>
        if !crypto.compare(password.value, u.password) then InvalidCredentials
        else LoggedIn(crypto.sign(u.id), WithoutPassword(u))
  }

  /** Missing credentials are rejected before the table is read: the reply is the same whatever the table holds. */
  lemma LoginMissingIgnoresTable(users1: seq<User>, users2: seq<User>, email: Option<string>, password: Option<string>, crypto: Crypto)
    requires !(Truthy(email) && Truthy(password))
    ensures Login(users1, email, password, crypto) == Login(users2, email, password, crypto)
    ensures Login(users1, email, password, crypto).Status() == 400
  {
  }

  /** An email no user has is rejected with 401 "Invalid credentials". */
  lemma LoginUnknownEmail(users: seq<User>, email: string, password: string, crypto: Crypto)
    requires email != "" && password != "" && !EmailTaken(users, email)
    ensures Login(users, Some(email), Some(password), crypto) == InvalidCredentials
  {
  }

  /** A wrong password for an existing user gets the very same reply as an unknown email. */
  lemma LoginWrongPassword(users: seq<User>, u: User, password: string, crypto: Crypto)
    requires EmailsUnique(users) && u in users && u.email != "" && password != ""
    requires !crypto.compare(password, u.password)
    ensures Login(users, Some(u.email), Some(password), crypto) == InvalidCredentials
  {
    FindByEmailUnique(users, u);
  }

  /** The right password for an existing user yields a token for its id and the user without its password. */
  lemma LoginSuccess(users: seq<User>, u: User, password: string, crypto: Crypto)
    requires EmailsUnique(users) && u in users && u.email != "" && password != ""
    requires crypto.compare(password, u.password)
    ensures Login(users, Some(u.email), Some(password), crypto) == LoggedIn(crypto.sign(u.id), WithoutPassword(u))
  {
    FindByEmailUnique(users, u);
  }

  /** Logging in with the credentials just registered succeeds, given that a password matches its own hash. */
  lemma RegisterThenLogin(users: seq<User>, nextId: int, name: Option<string>, email: Option<string>,
                          password: Option<string>, crypto: Crypto)
    requires UsersWellFormed(users, nextId) && HashSound(crypto)
    requires RegisterOutcome(users, nextId, name, email, password, crypto.hash).reply.Registered?
    ensures var r := RegisterOutcome(users, nextId, name, email, password, crypto.hash);
      Login(r.users, email, password, crypto) == LoggedIn(crypto.sign(nextId), r.reply.user)
  {
    var r := RegisterOutcome(users, nextId, name, email, password, crypto.hash);
    RegisterPreservesWellFormed(users, nextId, name, email, password, crypto.hash);
    var u := r.users[|users|];
    assert u in r.users;
    assert crypto.compare(password.value, crypto.hash(password.value));
    LoginSuccess(r.users, u, password.value, crypto);
  }

  /** The User table behind the two handlers. */
  class UserTable {
    var users: seq<User>
    var nextId: int

    ghost predicate Valid()
      reads this
    {
      UsersWellFormed(users, nextId)
    }

    constructor ()
      ensures Valid() && users == [] && nextId == 1
    {
      users := [];
      nextId := 1;
    }

    /** `register`: validate the body, refuse a taken email, then insert the row with the hashed password. */
    method Register(name: Option<string>, email: Option<string>, password: Option<string>, hash: string -> string)
      returns (reply: RegisterReply)
      requires Valid()
      modifies this
      ensures Valid()
      ensures reply == RegisterOutcome(old(users), old(nextId), name, email, password, hash).reply
      ensures users == RegisterOutcome(old(users), old(nextId), name, email, password, hash).users
      ensures nextId == RegisterOutcome(old(users), old(nextId), name, email, password, hash).nextId
    {
      RegisterPreservesWellFormed(users, nextId, name, email, password, hash);
      if !(Truthy(name) && Truthy(email) && Truthy(password)) {
        return MissingFields;
      }
      var existingUser := FindByEmail(users, email.value);
      if existingUser.Some? {
        return UserExists;
      }
      var hashed := hash(password.value);
      var user := User(nextId, name.value, email.value, hashed);
      users := users + [user];
      nextId := nextId + 1;
      reply := Registered(WithoutPassword(user));
    }
  }
}
