/**
 * The authentication router of the server (server/routes/auth.js): `signup` stores a
 * new user under a fresh email with a hashed password, `login` looks the email up and
 * compares the password against the stored hash. The hash and the comparison of the
 * bcrypt library are kept abstract: two functions of which only one fact is known,
 * that a password matches any hash made from it.
 */
module Auth {
  import opened Wrappers

  datatype User = User(id: string, name: string, email: string, password: string)

  /** The status code and the JSON body of a reply. */
  datatype Reply = Reply(status: int, message: string, userId: Option<string>)

  const UserExists := Reply(400, "\U{274C} User already exists", None)
  const InvalidCredentials := Reply(400, "\U{274C} Invalid credentials", None)

  /** What bcrypt promises: `compare(p, hash(p, s))` for every password and salt. */
  ghost predicate HashSound(hash: (string, string) -> string, compare: (string, string) -> bool) {
    forall p, s :: compare(p, hash(p, s))
  }

  predicate EmailTaken(users: seq<User>, email: string) {
    exists k :: 0 <= k < |users| && users[k].email == email
  }

  predicate IdTaken(users: seq<User>, id: string) {
    exists k :: 0 <= k < |users| && users[k].id == id
  }

  /** No two users share an email, and no two share an id. */
  ghost predicate Unique(users: seq<User>) {
    forall i, j :: 0 <= i < j < |users| ==> users[i].email != users[j].email && users[i].id != users[j].id
  }

  /** `User.findOne({ email })`: the first user with that email. */
  function FindByEmail(users: seq<User>, email: string): (r: Option<User>)
    ensures r.None? <==> !EmailTaken(users, email)
    ensures r.Some? ==> r.value in users && r.value.email == email
  {
    if users == [] then None
    else if users[0].email == email then Some(users[0])
    else
      var r := FindByEmail(users[1..], email);
      assert forall k :: 0 < k < |users| ==> users[k] == users[1..][k - 1];
      r
  }

  /** POST `/login`: an unknown email and a wrong password get one and the same reply;
      nothing is stored. */
  function Login(users: seq<User>, compare: (string, string) -> bool, email: string, password: string): (r: Reply)
    ensures r.status == 200 <==>
      FindByEmail(users, email).Some? && compare(password, FindByEmail(users, email).value.password)
    ensures r.status != 200 ==> r == InvalidCredentials
    ensures r.status == 200 ==>
      r == Reply(200, "\U{2705} Login successful", Some(FindByEmail(users, email).value.id))
  {
    match FindByEmail(users, email)
    case None => InvalidCredentials
    case Some(user) =>
      if !compare(password, user.password) then InvalidCredentials
      else Reply(200, "\U{2705} Login successful", Some(user.id))
  }

  /** In a store with unique emails, the user found is the only one with that email. */
  lemma FindByEmailIsTheUser(users: seq<User>, k: nat)
    requires Unique(users) && k < |users|
    ensures FindByEmail(users, users[k].email) == Some(users[k])
  {
    var found := FindByEmail(users, users[k].email).value;
    var j :| 0 <= j < |users| && users[j] == found;
    assert j == k;
  }

  /** Appending a user whose email is new leaves every other email's lookup alone and
      makes the new email find the new user. */
  lemma {:induction false} FindAfterAppend(users: seq<User>, u: User, email: string)
    requires !EmailTaken(users, u.email)
    ensures FindByEmail(users + [u], email) == if email == u.email then Some(u) else FindByEmail(users, email)
  {
    if users == [] {
      assert [u][1..] == [];
    } else {
      assert (users + [u])[1..] == users[1..] + [u];
      assert !EmailTaken(users[1..], u.email) by {
        forall k | 0 <= k < |users[1..]| ensures users[1..][k].email != u.email {
          assert users[1..][k] == users[k + 1];
        }
      }
      FindAfterAppend(users[1..], u, email);
    }
  }

  /** Signing up and then logging in with the same email and password succeeds, with the
      id the signup issued. */
  lemma SignupThenLogin(users: seq<User>, hash: (string, string) -> string, compare: (string, string) -> bool,
                        id: string, name: string, email: string, password: string, salt: string)
    requires HashSound(hash, compare) && !EmailTaken(users, email)
    ensures Login(users + [User(id, name, email, hash(password, salt))], compare, email, password)
            == Reply(200, "\U{2705} Login successful", Some(id))
  {
    FindAfterAppend(users, User(id, name, email, hash(password, salt)), email);
  }

  /** A later signup leaves every earlier user able to log in exactly as before. */
  lemma SignupKeepsOtherLogins(users: seq<User>, compare: (string, string) -> bool, u: User,
                               email: string, password: string)
    requires !EmailTaken(users, u.email) && email != u.email
    ensures Login(users + [u], compare, email, password) == Login(users, compare, email, password)
  {
    FindAfterAppend(users, u, email);
  }

  /** The user collection behind the router, with the hash and compare functions of the
      password library. */
  class UserStore {
    const hash: (string, string) -> string
    const compare: (string, string) -> bool
    var users: seq<User>

    ghost predicate Valid()
      reads this
    {
      HashSound(hash, compare) && Unique(users)
    }

    constructor (hash: (string, string) -> string, compare: (string, string) -> bool)
      requires HashSound(hash, compare)
      ensures Valid() && users == []
      ensures this.hash == hash && this.compare == compare
    {
      this.hash := hash;
      this.compare := compare;
      users := [];
    }

    /** POST `/signup`: `salt` stands for `bcrypt.genSalt(10)` and `freshId` for the `_id`
        the database assigns. Only the hash of the password is stored. */
    method Signup(name: string, email: string, password: string, salt: string, freshId: string)
      returns (res: Reply)
      requires Valid() && !IdTaken(users, freshId)
      modifies this
      ensures Valid()
      ensures EmailTaken(old(users), email) ==> res == UserExists && users == old(users)
      ensures !EmailTaken(old(users), email) ==>
        && users == old(users) + [User(freshId, name, email, hash(password, salt))]
        && res == Reply(201, "\U{2705} User registered successfully", Some(freshId))
    {
      var existingUser := FindByEmail(users, email);
      if existingUser.Some? {
        return UserExists;
      }
      var hashedPassword := hash(password, salt);
      var newUser := User(freshId, name, email, hashedPassword);
      ghost var before := users;
      users := users + [newUser];
      forall i, j | 0 <= i < j < |users| ensures users[i].email != users[j].email && users[i].id != users[j].id {
        if j == |before| {
          assert users[i] == before[i];
        }
      }
      res := Reply(201, "\U{2705} User registered successfully", Some(freshId));
    }
  }
}
