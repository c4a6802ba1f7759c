/**
  The auth router: POST /signup and POST /login over an in-memory user table.

  bcrypt is an abstract pair of functions held in the configuration: a
  salted `hash` and a `compare`; the one thing assumed of them is that a
  password matches its own hash (`Sound`). The JWT is the record of its
  claims: the user's id, the issue time and the expiry one hour later (in
  seconds). The secret that signs it is part of the configuration; an empty
  or unset secret makes `jwt.sign` throw. Whether the persistence client's
  call succeeds is a boolean `storeUp`.
*/
module AuthRoutes {

  import opened Wrappers

  type UserId = nat

  /** Seconds since the epoch. */
  type Seconds = nat

  /** A stored user: `password` holds the hash, never the password itself. */
  datatype User = User(id: UserId, username: string, password: string)

  /** `bcrypt.hash(password, salt)` and `bcrypt.compare(password, hash)`. */
  datatype Hasher = Hasher(hash: (string, nat) -> string, compare: (string, string) -> bool)

  /** A password always matches a hash made from it, whatever the salt. */
  ghost predicate Sound(h: Hasher) {
    forall p, salt :: h.compare(p, h.hash(p, salt))
  }

  /** The configuration built once at start-up: the hasher and the JWT secret. */
  datatype AuthConfig = AuthConfig(hasher: Hasher, secret: string)

  /** `expiresIn: "1hr"`. */
  const TokenLifetime: nat := 3600

  /** The claims of the signed token. */
  datatype Token = Token(userId: UserId, iat: Seconds, exp: Seconds)

  datatype Body =
    | Created(message: string)
    | TokenIssued(token: Token)
    | ErrorMessage(error: string)

  datatype Reply = Reply(code: nat, body: Body)

  ghost predicate UniqueUsernames(users: seq<User>) {
    forall i, j :: 0 <= i < j < |users| ==> users[i].username != users[j].username
  }

  /** `findUnique({ where: { username } })`: the first user with that name. */
  function FindUser(users: seq<User>, username: string): (r: Option<User>)
    ensures r.Some? ==> r.value in users && r.value.username == username
    ensures r.None? <==> forall u :: u in users ==> u.username != username
  {
    if users == [] then None
    else if users[0].username == username then Some(users[0])
    else FindUser(users[1..], username)
  }

  /** With unique usernames, the lookup finds the one user of that name. */
  lemma {:induction false} FindUserUnique(users: seq<User>, u: User)
    requires UniqueUsernames(users) && u in users
    ensures FindUser(users, u.username) == Some(u)
  {
    if users[0] != u {
      assert users[0].username != u.username by {
        var k :| 0 <= k < |users| && users[k] == u;
        assert k != 0;
      }
      assert u in users[1..];
      assert UniqueUsernames(users[1..]) by {
        forall a, b | 0 <= a < b < |users[1..]|
          ensures users[1..][a].username != users[1..][b].username
        {
          assert users[1..][a] == users[a + 1] && users[1..][b] == users[b + 1];
        }
      }
      FindUserUnique(users[1..], u);
    }
  }

  /** Appending a user whose name is new keeps usernames unique. */
  lemma AppendKeepsUnique(users: seq<User>, u: User)
    requires UniqueUsernames(users) && FindUser(users, u.username).None?
    ensures UniqueUsernames(users + [u])
  {
    var users' := users + [u];
    forall i, j | 0 <= i < j < |users'| ensures users'[i].username != users'[j].username {
      if j == |users| {
        assert users'[i] in users;
      } else {
        assert users'[i] == users[i] && users'[j] == users[j];
      }
    }
  }

  /**
    POST /login. A read-only lookup and three checks: an unknown username, a
    password that does not match and a secret `jwt.sign` refuses. A store
    failure is caught and answered with 500.
  */
  function Login(users: seq<User>, config: AuthConfig, storeUp: bool, username: string, password: string, now: Seconds)
    : (reply: Reply)
    requires UniqueUsernames(users)
    ensures !storeUp ==> reply == Reply(500, ErrorMessage("Something went wrong"))
    ensures storeUp && (forall u :: u in users ==> u.username != username) ==>
      reply == Reply(400, ErrorMessage("Invalid credentials"))
    ensures storeUp ==> forall u :: u in users && u.username == username ==>
      && (!config.hasher.compare(password, u.password) ==> reply == Reply(400, ErrorMessage("Invalid Password")))
      && (config.hasher.compare(password, u.password) && config.secret == "" ==>
            reply == Reply(500, ErrorMessage("Something went wrong")))
      && (config.hasher.compare(password, u.password) && config.secret != "" ==>
            reply == Reply(200, TokenIssued(Token(u.id, now, now + TokenLifetime))))
    // a token is issued only to a stored user whose password matches, and expires one hour after issue
    ensures reply.code == 200 <==>
      storeUp && config.secret != "" &&
      exists u :: u in users && u.username == username && config.hasher.compare(password, u.password)
    ensures reply.code == 200 ==>
      reply.body.TokenIssued? && reply.body.token.exp == reply.body.token.iat + TokenLifetime
  {
    if !storeUp then Reply(500, ErrorMessage("Something went wrong"))
    else match FindUser(users, username)
      case None => Reply(400, ErrorMessage("Invalid credentials"))
      case Some(u) =>
        FindUserUnique(users, u);
        if !config.hasher.compare(password, u.password) then Reply(400, ErrorMessage("Invalid Password"))
        else if config.secret == "" then Reply(500, ErrorMessage("Something went wrong"))
        else Reply(200, TokenIssued(Token(u.id, now, now + TokenLifetime)))
  }

  /** The two credential failures share their status code and differ only in the message. */
  lemma CredentialFailuresShareCode(users: seq<User>, config: AuthConfig, u: User, other: string, password: string, now: Seconds)
    requires UniqueUsernames(users) && u in users
    requires forall v :: v in users ==> v.username != other
    requires !config.hasher.compare(password, u.password)
    ensures Login(users, config, true, other, password, now).code == 400
    ensures Login(users, config, true, u.username, password, now).code == 400
    ensures Login(users, config, true, other, password, now).body != Login(users, config, true, u.username, password, now).body
  {
  }

  class UserStore {
    /** The user table. */
    var users: seq<User>
    /** The id the next created user receives. */
    var nextId: UserId
    const config: AuthConfig

    ghost predicate Valid()
      reads this
    {
      UniqueUsernames(users) && forall u :: u in users ==> u.id < nextId
    }

    constructor (config: AuthConfig)
      ensures Valid() && users == [] && nextId == 0 && this.config == config
    {
      users := [];
      nextId := 0;
      this.config := config;
    }

    /**
      POST /signup with `{ username, password }`, hashed with a fresh `salt`.
      Every failure of the insert, the unique-username violation or any
      other, is answered with the same 400.
    */
    method Signup(storeUp: bool, username: string, password: string, salt: nat) returns (reply: Reply)
      requires Valid()
      modifies this
      ensures Valid()
      ensures storeUp && FindUser(old(users), username).None? ==>
        && users == old(users) + [User(old(nextId), username, config.hasher.hash(password, salt))]
        && nextId == old(nextId) + 1
        && reply == Reply(201, Created("User created successfully"))
      ensures !(storeUp && FindUser(old(users), username).None?) ==>
        && users == old(users) && nextId == old(nextId)
        && reply == Reply(400, ErrorMessage("user already exists"))
    {
      var hashed := config.hasher.hash(password, salt);
      if !storeUp || FindUser(users, username).Some? {
        return Reply(400, ErrorMessage("user already exists"));
      }
      var u := User(nextId, username, hashed);
      AppendKeepsUnique(users, u);
      users := users + [u];
      nextId := nextId + 1;
      reply := Reply(201, Created("User created successfully"));
    }
  }

  /** Signing up a username that already exists fails, whatever the password. */
  lemma SignupTwiceRejected(users: seq<User>, id: UserId, username: string, hashed: string)
    requires UniqueUsernames(users) && FindUser(users, username).None?
    ensures FindUser(users + [User(id, username, hashed)], username).Some?
  {
    assert User(id, username, hashed) in users + [User(id, username, hashed)];
  }

  /**
    Logging in with the credentials just signed up with yields a token for the
    new user, expiring an hour after it is issued.
  */
  lemma SignupThenLogin(users: seq<User>, config: AuthConfig, id: UserId, username: string, password: string, salt: nat, now: Seconds)
    requires Sound(config.hasher) && config.secret != ""
    requires UniqueUsernames(users) && FindUser(users, username).None?
    ensures UniqueUsernames(users + [User(id, username, config.hasher.hash(password, salt))])
    ensures Login(users + [User(id, username, config.hasher.hash(password, salt))], config, true, username, password, now)
      == Reply(200, TokenIssued(Token(id, now, now + TokenLifetime)))
  {
    var u := User(id, username, config.hasher.hash(password, salt));
    AppendKeepsUnique(users, u);
    assert u in users + [u];
    FindUserUnique(users + [u], u);
    assert config.hasher.compare(password, u.password);
  }

}
