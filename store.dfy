/** The database the handlers share (the package-level `database.DB`): one
    object whose fields are the tables, each a sequence of rows in
    primary-key order, plus the next value of each table's serial key. */
module Store {
  import opened Common
  import opened CircleModels
  import opened ResetModels

  /** The users table, reduced to the columns the modelled handlers read
      or write. internal/models/user.go is not part of this model. */
  datatype User = User(id: Id, name: string, email: string, passwordHash: string)

  class Database {
    var users: seq<User>
    var circles: map<Id, Circle>
    var members: seq<CircleMember>
    var memberApprovals: seq<MemberApproval>
    var amountApprovals: seq<AmountApproval>
    var contributions: seq<Contribution>
    var resetTokens: seq<PasswordResetToken>
    var nextCircleId: nat
    var nextContributionId: nat
    var nextTokenId: nat

    /** A database holding the given users and nothing else; every serial
        key starts at 1. */
    constructor (users: seq<User>)
      ensures this.users == users
      ensures circles == map[] && members == [] && memberApprovals == [] && amountApprovals == []
      ensures contributions == [] && resetTokens == []
      ensures nextCircleId == 1 && nextContributionId == 1 && nextTokenId == 1
    {
      this.users := users;
      circles := map[];
      members := [];
      memberApprovals := [];
      amountApprovals := [];
      contributions := [];
      resetTokens := [];
      nextCircleId := 1;
      nextContributionId := 1;
      nextTokenId := 1;
    }
  }

  /** `First(&user, id)`: whether a user row with that primary key exists. */
  predicate UserExists(users: seq<User>, id: Id)
  {
    exists u :: u in users && u.id == id
  }

  /** `First(&user, id)`: the user with that primary key, if any. */
  function FindUserById(users: seq<User>, id: Id): (r: Option<User>)
    ensures r.Some? ==> r.value in users && r.value.id == id
    ensures r.None? ==> !UserExists(users, id)
  {
    if users == [] then None
    else if users[0].id == id then Some(users[0])
    else FindUserById(users[1..], id)
  }

  /** `Where("email = ?", e).First(&user)`: the first user with that email. */
  function FindUserByEmail(users: seq<User>, email: string): (r: Option<User>)
    ensures r.Some? ==> r.value in users && r.value.email == email
    ensures r.None? ==> forall u :: u in users ==> u.email != email
  {
    if users == [] then None
    else if users[0].email == email then Some(users[0])
    else FindUserByEmail(users[1..], email)
  }
}
