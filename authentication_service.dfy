/** The authentication services: creating a user together with the admin or
    customer row its role calls for, looking a user up by email, marking the
    users with an email as verified, and the login lookup. */
module AuthenticationService {
  import opened Common
  import opened Entities
  import opened Tables
  import Db

  const CreatedMessage := "User created successfully"

  function WithEmail(email: string): User -> bool { (u: User) => u.email == email }

  /** createUserService: the user row is stored and the row `returning()` gives
      back is the user; a role of exactly "admin" adds an admin row and exactly
      "user" a customer row, each with the next serial key and the user's ID;
      any other role, `null` included, adds neither. */
  method CreateUser(db: Db.Database, user: User) returns (message: string)
    requires db.Valid()
    modifies db`users, db`admins, db`customers, db`nextAdminID, db`nextCustomerID
    ensures db.Valid()
    ensures message == CreatedMessage
    ensures db.users == old(db.users) + [user]
    ensures user.role == Some("admin") ==>
      && db.admins == old(db.admins) + [Admin(old(db.nextAdminID), user.userID)]
      && db.nextAdminID == old(db.nextAdminID) + 1
      && db.customers == old(db.customers) && db.nextCustomerID == old(db.nextCustomerID)
    ensures user.role == Some("user") ==>
      && db.customers == old(db.customers) + [Customer(old(db.nextCustomerID), user.userID)]
      && db.nextCustomerID == old(db.nextCustomerID) + 1
      && db.admins == old(db.admins) && db.nextAdminID == old(db.nextAdminID)
    ensures user.role != Some("admin") && user.role != Some("user") ==>
      && db.admins == old(db.admins) && db.nextAdminID == old(db.nextAdminID)
      && db.customers == old(db.customers) && db.nextCustomerID == old(db.nextCustomerID)
  {
    db.users := db.users + [user];
    var insertedUser := db.users[|db.users| - 1];
    assert user in db.users;
    if insertedUser.role == Some("admin") {
      db.admins := db.admins + [Admin(db.nextAdminID, insertedUser.userID)];
      db.nextAdminID := db.nextAdminID + 1;
    } else if insertedUser.role == Some("user") {
      db.customers := db.customers + [Customer(db.nextCustomerID, insertedUser.userID)];
      db.nextCustomerID := db.nextCustomerID + 1;
    }
    message := CreatedMessage;
  }

  /** getUserByEmailService: the first user with that email, `None` for `undefined`. */
  function GetUserByEmail(users: seq<User>, email: string): (r: Option<User>)
    ensures r.None? <==> forall u :: u in users ==> u.email != email
    ensures r.Some? ==> r.value in users && r.value.email == email
  {
    FindFirst(users, WithEmail(email))
  }

  /** One user row after `set({ isVerified: true, verificationCode: null })`. */
  function MarkVerified(u: User): User
  {
    u.(isVerified := true, verificationCode := None)
  }

  /** The user table after verifyUserService(email): the rows with that email are
      marked verified and lose their code; every other row is as it was. */
  function VerifyRows(users: seq<User>, email: string): (r: seq<User>)
    ensures |r| == |users|
    ensures forall i :: 0 <= i < |users| && users[i].email != email ==> r[i] == users[i]
    ensures forall i :: 0 <= i < |users| && users[i].email == email ==> r[i] == MarkVerified(users[i])
    decreases |users|
  {
    if users == [] then []
    else [if users[0].email == email then MarkVerified(users[0]) else users[0]] + VerifyRows(users[1..], email)
  }

  /** verifyUserService */
  method VerifyUser(db: Db.Database, email: string)
    requires db.Valid()
    modifies db`users
    ensures db.Valid()
    ensures db.users == VerifyRows(old(db.users), email)
  {
    SameUserIds(db.users, email);
    db.users := VerifyRows(db.users, email);
  }

  /** Verification keeps every user's ID, so admin and customer rows still point
      at stored users. */
  lemma SameUserIds(users: seq<User>, email: string)
    ensures forall u :: u in users ==> exists v :: v in VerifyRows(users, email) && v.userID == u.userID
  {
    var r := VerifyRows(users, email);
    forall u | u in users ensures exists v :: v in r && v.userID == u.userID {
      var i :| 0 <= i < |users| && users[i] == u;
      assert r[i] in r;
    }
  }

  /** Verifying twice leaves the table as verifying once. */
  lemma {:induction false} VerifyIdempotent(users: seq<User>, email: string)
    ensures VerifyRows(VerifyRows(users, email), email) == VerifyRows(users, email)
  {
    var once := VerifyRows(users, email);
    var twice := VerifyRows(once, email);
    forall i | 0 <= i < |users| ensures twice[i] == once[i] {
    }
  }

  /** After verification, looking the email up finds a verified user with no code. */
  lemma {:induction false} VerifiedThenFound(users: seq<User>, email: string)
    requires exists u :: u in users && u.email == email
    ensures var found := GetUserByEmail(VerifyRows(users, email), email);
            found.Some? && found.value.isVerified && found.value.verificationCode.None?
  {
    var r := VerifyRows(users, email);
    var u :| u in users && u.email == email;
    var i :| 0 <= i < |users| && users[i] == u;
    assert r[i] in r && r[i].email == email;
    forall x | x in r && x.email == email
      ensures x.isVerified && x.verificationCode.None?
    {
      var j :| 0 <= j < |r| && r[j] == x;
      assert users[j].email == email;
    }
  }

  /** The columns userLoginService selects. */
  datatype LoginView = LoginView(userID: int, email: string, password: string, role: Option<string>)

  function LoginColumns(u: User): LoginView
  {
    LoginView(u.userID, u.email, u.password, u.role)
  }

  /** userLoginService: only the email of the given credentials is compared. */
  function UserLogin(users: seq<User>, credentials: User): (r: Option<LoginView>)
    ensures r.None? <==> forall u :: u in users ==> u.email != credentials.email
    ensures r.Some? ==> exists u :: u in users && u.email == credentials.email && r.value == LoginColumns(u)
  {
    match FindFirst(users, WithEmail(credentials.email))
    case None => None
    case Some(u) => Some(LoginColumns(u))
  }

  /** Login sees the user the email lookup finds, through the selected columns. */
  lemma LoginProjectsLookup(users: seq<User>, credentials: User)
    ensures UserLogin(users, credentials).None? <==> GetUserByEmail(users, credentials.email).None?
    ensures UserLogin(users, credentials).Some? ==>
      UserLogin(users, credentials).value == LoginColumns(GetUserByEmail(users, credentials.email).value)
  {
  }

  /** A user created with an email no stored user has can then log in, whatever
      password is offered, and sees its own ID and role. */
  lemma CreatedUserCanLogIn(users: seq<User>, user: User, credentials: User)
    requires forall u :: u in users ==> u.email != user.email
    requires credentials.email == user.email
    ensures UserLogin(users + [user], credentials) == Some(LoginColumns(user))
  {
    FindFirstSnoc(users, user, WithEmail(user.email));
  }
}
